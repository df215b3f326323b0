/**
 What becomes of the jobs: each job that is popped is given to the handler exactly once, and
 the result of a dispatch call says what became of its job.
 */
module PoolJobs {
  import opened ByteStrings
  import opened ThreadPool

  // ---- Jobs that threads hold ----

  /** The job that a worker has popped and not yet handled. */
  function HeldJob(w: Worker): Option<Job>
  {
    if w.PopUnlock? || w.Handling? then w.job else None
  }

  /** A worker that has popped and has no job. */
  predicate EmptyHanded(w: Worker) { w == PopUnlock(None) || w == Handling(None) }

  /** The job of a dispatch call that has queued it. */
  function QueuedJob(c: Caller): Option<Job>
  {
    var queued := c.Deciding? || c.Creating? || c.Counting? || c.Unlocking? || c.Posting?
                  || ((c.Refusing? || c.Returned?) && c.queued);
    if queued then Some(c.job) else None
  }

  /** The job of a call that fails although it is queued. */
  function StrandedJob(c: Caller): Option<Job>
  {
    if (c.Refusing? || (c.Returned? && !c.result)) && c.queued then Some(c.job) else None
  }

  function One(job: Option<Job>): multiset<Job> { if job.Some? then multiset{job.value} else multiset{} }

  function Total<T>(ts: seq<T>, f: T -> Option<Job>): multiset<Job>
  {
    if ts == [] then multiset{} else Total(ts[..|ts| - 1], f) + One(f(ts[|ts| - 1]))
  }

  lemma Swapped(a: multiset<Job>, b: multiset<Job>, c: multiset<Job>)
    ensures a + b + c == a + c + b
  {
  }

  lemma {:induction false} TakeOut<T>(ts: seq<T>, f: T -> Option<Job>, i: nat)
    requires i < |ts|
    ensures Total(ts, f) == Total(ts[..i] + ts[i + 1..], f) + One(f(ts[i]))
  {
    hide One;
    var n := |ts| - 1;
    var others := ts[..i] + ts[i + 1..];
    if i < n {
      assert others[..n - 1] == ts[..n][..i] + ts[..n][i + 1..] && others[n - 1] == ts[n];
      TakeOut(ts[..n], f, i);
      Swapped(Total(others[..n - 1], f), One(f(ts[i])), One(f(ts[n])));
    } else {
      assert others == ts[..n];
    }
  }

  /** What moving number `i` does to a total. */
  lemma MoveOne<T>(ts: seq<T>, f: T -> Option<Job>, i: nat, t: T) returns (rest: multiset<Job>)
    requires i < |ts|
    ensures Total(ts, f) == rest + One(f(ts[i]))
    ensures Total(ts[i := t], f) == rest + One(f(t))
  {
    assert ts[i := t][..i] + ts[i := t][i + 1..] == ts[..i] + ts[i + 1..];
    TakeOut(ts, f, i);
    TakeOut(ts[i := t], f, i);
    rest := Total(ts[..i] + ts[i + 1..], f);
  }

  lemma JoinOne<T>(ts: seq<T>, f: T -> Option<Job>, t: T)
    ensures Total(ts + [t], f) == Total(ts, f) + One(f(t))
  {
    assert (ts + [t])[..|ts|] == ts;
  }

  // ---- The invariant ----

  ghost predicate WorkerJobs(log: Log, ws: seq<Worker>)
  {
    && multiset(log.popped) == multiset(log.handled) + Total(ws, HeldJob)
    && forall w <- ws :: !EmptyHanded(w)
  }

  /** A call that keeps its job has found a worker that lives. */
  predicate CallerOk(thrMax: nat, v: Vars, c: Caller)
  {
    && (c.Returned? && c.result ==> c.queued)
    && (c.Unlocking? && thrMax > 0 ==> v.alive > 0)
  }

  /** Threads are only made when no worker was idle. */
  ghost predicate ThreadsNeeded(log: Log, ws: seq<Worker>, cs: seq<Caller>)
  {
    |ws| + Callers(cs).growing - Callers(cs).counting <= log.scarce
  }

  ghost predicate CallerJobs(log: Log, cs: seq<Caller>)
  {
    multiset(log.added) == Total(cs, QueuedJob) && |Total(cs, StrandedJob)| == log.orphans
  }

  ghost predicate JobInv(s: Pool)
  {
    && Inv(s)
    && WorkerJobs(s.log, s.workers)
    && CallerJobs(s.log, s.callers)
    && ThreadsNeeded(s.log, s.workers, s.callers)
    && forall c <- s.callers :: CallerOk(s.thrMax, s.vars, c)
  }

  /** A log keeps its jobs, and a thread its own; or one job is logged that the thread did not
      hold before, or does not hold any more. */
  predicate Same(before: seq<Job>, after: seq<Job>, had: Option<Job>, has: Option<Job>)
  {
    before == after && had == has
  }

  predicate Takes(before: seq<Job>, after: seq<Job>, had: Option<Job>, has: Option<Job>)
  {
    |after| == |before| + 1 && after[..|before|] == before && had == None && has == Some(after[|before|])
  }

  /** One step of a worker: jobs go from the queue to its hands, and from there to the handler. */
  lemma WorkerMoveJobs(v: Vars, log: Log, w: Worker, fail: bool)
    requires WorkerEnabled(v, w, fail) && !EmptyHanded(w) && (w == Popping ==> v.queue != [])
    ensures var m := WorkerMove(v, log, w, fail);
            && ((m.log.handled == log.handled && (Same(log.popped, m.log.popped, HeldJob(w), HeldJob(m.pc))
                                                  || Takes(log.popped, m.log.popped, HeldJob(w), HeldJob(m.pc))))
                || (m.log.popped == log.popped && Takes(log.handled, m.log.handled, HeldJob(m.pc), HeldJob(w))))
            && !EmptyHanded(m.pc) && m.log.added == log.added && m.log.orphans == log.orphans
  {
  }

  lemma Logged(before: seq<Job>, after: seq<Job>, had: Option<Job>, has: Option<Job>, rest: multiset<Job>)
    requires Same(before, after, had, has) || Takes(before, after, had, has)
    ensures multiset(after) + (rest + One(had)) == multiset(before) + (rest + One(has))
  {
    if Takes(before, after, had, has) {
      assert after == before + [after[|before|]];
    }
  }

  lemma WorkerStep(s: Pool, i: nat, fail: bool)
    requires JobInv(s) && Enabled(s, Work(i, fail))
    ensures var t := Step(s, Work(i, fail)); WorkerJobs(t.log, t.workers) && CallerJobs(t.log, t.callers)
  {
    hide Inv, WorkerMove, EmptyHanded, HeldJob, Total, Takes;
    var w := s.workers[i];
    var m := WorkerMove(s.vars, s.log, w, fail);
    assert w in s.workers;
    if w == Popping {
      PoppingFinds(s, i);
    }
    WorkerMoveJobs(s.vars, s.log, w, fail);
    var rest := MoveOne(s.workers, HeldJob, i, m.pc);
    if m.log.handled == s.log.handled && (Same(s.log.popped, m.log.popped, HeldJob(w), HeldJob(m.pc))
                                          || Takes(s.log.popped, m.log.popped, HeldJob(w), HeldJob(m.pc))) {
      Logged(s.log.popped, m.log.popped, HeldJob(w), HeldJob(m.pc), rest);
    } else {
      Logged(s.log.handled, m.log.handled, HeldJob(m.pc), HeldJob(w), rest);
    }
    Cancel(multiset(s.log.popped), multiset(s.log.handled), rest + One(HeldJob(w)),
           multiset(m.log.popped), multiset(m.log.handled), rest + One(HeldJob(m.pc)));
    forall x <- s.workers[i := m.pc]
      ensures !EmptyHanded(x)
    {
      assert x == m.pc || x in s.workers;
    }
  }

  lemma Cancel(p: multiset<Job>, h: multiset<Job>, held: multiset<Job>,
               p': multiset<Job>, h': multiset<Job>, held': multiset<Job>)
    requires p == h + held
    requires (h' == h && p' + held == p + held') || (p' == p && h' + held' == h + held)
    ensures p' == h' + held'
  {
    forall x: Job
      ensures p'[x] == (h' + held')[x]
    {
      assert (p' + held)[x] == p'[x] + held[x] && (p + held')[x] == p[x] + held'[x];
    }
  }

  lemma PoppingFinds(s: Pool, i: nat)
    requires Inv(s) && i < |s.workers| && s.workers[i] == Popping
    ensures s.vars.queue != []
  {
    CrewIsOk(s.workers);
    DeskIsOk(s.callers);
    var rest := MoveCrew(s.workers, i, s.workers[i]);
  }

  /** One step of a dispatch call. */
  lemma CallerMoveJobs(thrMax: nat, v: Vars, log: Log, c: Caller, fail: bool)
    requires CallerEnabled(v, c)
    ensures var m := CallerMove(thrMax, v, log, c, fail);
            && (Same(log.added, m.log.added, QueuedJob(c), QueuedJob(m.pc))
                || Takes(log.added, m.log.added, QueuedJob(c), QueuedJob(m.pc)))
            && m.log.popped == log.popped && m.log.handled == log.handled
  {
  }

  lemma CallerMoveStrands(thrMax: nat, v: Vars, log: Log, c: Caller, fail: bool)
    requires CallerEnabled(v, c)
    ensures var m := CallerMove(thrMax, v, log, c, fail);
            if m.log.orphans == log.orphans then StrandedJob(m.pc) == StrandedJob(c)
            else m.log.orphans == log.orphans + 1 && StrandedJob(c) == None && StrandedJob(m.pc).Some?
  {
  }

  lemma CallerStep(s: Pool, i: nat, fail: bool)
    requires JobInv(s) && Enabled(s, Dispatch(i, fail))
    ensures var t := Step(s, Dispatch(i, fail)); WorkerJobs(t.log, t.workers) && CallerJobs(t.log, t.callers)
  {
    hide Inv, CallerMove, QueuedJob, StrandedJob, Total, Same, Takes, EmptyHanded, CallerOk;
    var c := s.callers[i];
    var m := CallerMove(s.thrMax, s.vars, s.log, c, fail);
    CallerMoveJobs(s.thrMax, s.vars, s.log, c, fail);
    QueuedMoves(s.callers, i, m.pc, s.log.added, m.log.added);
    CallerMoveStrands(s.thrMax, s.vars, s.log, c, fail);
    var stranded := MoveOne(s.callers, StrandedJob, i, m.pc);
    NewWorker(s.workers);
    NotEmptyHanded();
  }

  lemma NotEmptyHanded()
    ensures !EmptyHanded(AtLoop)
  {
  }

  lemma QueuedMoves(cs: seq<Caller>, i: nat, pc: Caller, before: seq<Job>, after: seq<Job>)
    requires i < |cs| && multiset(before) == Total(cs, QueuedJob)
    requires Same(before, after, QueuedJob(cs[i]), QueuedJob(pc)) || Takes(before, after, QueuedJob(cs[i]), QueuedJob(pc))
    ensures multiset(after) == Total(cs[i := pc], QueuedJob)
  {
    hide QueuedJob, Total, Same, Takes;
    var queued := MoveOne(cs, QueuedJob, i, pc);
    Logged(before, after, QueuedJob(cs[i]), QueuedJob(pc), queued);
    Cancel(multiset(before), multiset{}, queued + One(QueuedJob(cs[i])),
           multiset(after), multiset{}, queued + One(QueuedJob(pc)));
  }

  lemma NewWorker(ws: seq<Worker>)
    ensures Total(ws + [AtLoop], HeldJob) == Total(ws, HeldJob)
  {
    JoinOne(ws, HeldJob, AtLoop);
  }

  /** A thread that a caller sees idle, or that fills the pool, is alive; and no worker leaves
      while the caller holds the lock. */
  lemma CallersStayOk(s: Pool, a: Action)
    requires JobInv(s) && Enabled(s, a)
    ensures forall c <- Step(s, a).callers :: CallerOk(s.thrMax, Step(s, a).vars, c)
  {
    hide Inv, CallerOk, WorkerMove, CallerMove, CloserMove, WorkerJobs, CallerJobs;
    var t := Step(s, a);
    forall c <- t.callers
      ensures CallerOk(s.thrMax, t.vars, c)
    {
      var i :| 0 <= i < |t.callers| && t.callers[i] == c;
      if i < |s.callers| {
        assert s.callers[i] in s.callers;
        CallerStaysOk(s, a, i);
      } else {
        NewCallerOk(s.thrMax, t.vars, c);
      }
    }
  }

  lemma NewCallerOk(thrMax: nat, v: Vars, c: Caller)
    ensures c.Called? ==> CallerOk(thrMax, v, c)
  {
  }

  lemma CallerStaysOk(s: Pool, a: Action, i: nat)
    requires Inv(s) && Enabled(s, a) && i < |s.callers| && CallerOk(s.thrMax, s.vars, s.callers[i])
    ensures CallerOk(s.thrMax, Step(s, a).vars, Step(s, a).callers[i])
  {
    hide Inv, WorkerMove, CallerMove, CloserMove;
    match a
    case Call(_) =>
    case Work(w, fail) => OkUnderWork(s, w, fail, i);
    case Dispatch(c, fail) =>
      if c == i {
        OkUnderOwn(s, i, fail);
      } else {
        OkUnderOther(s, c, fail, i);
      }
    case Destroy => OkUnderClose(s);
  }

  lemma OkUnderWork(s: Pool, w: nat, fail: bool, i: nat)
    requires Inv(s) && Enabled(s, Work(w, fail)) && i < |s.callers|
    ensures s.callers[i].Unlocking? ==> WorkerMove(s.vars, s.log, s.workers[w], fail).vars.alive == s.vars.alive
  {
    if s.callers[i].Unlocking? && s.workers[w] == ExitDec {
      var crew := MoveCrew(s.workers, w, s.workers[w]);
      var desk := MoveDesk(s.callers, i, s.callers[i]);
      assert false;
    }
  }

  lemma OkUnderOwn(s: Pool, i: nat, fail: bool)
    requires Inv(s) && Enabled(s, Dispatch(i, fail)) && CallerOk(s.thrMax, s.vars, s.callers[i])
    ensures var m := CallerMove(s.thrMax, s.vars, s.log, s.callers[i], fail); CallerOk(s.thrMax, m.vars, m.pc)
  {
    hide TokenInv, ShutdownInv;
    CrewIsOk(s.workers);
    var desk := MoveDesk(s.callers, i, s.callers[i]);
  }

  lemma OkUnderOther(s: Pool, c: nat, fail: bool, i: nat)
    requires Inv(s) && Enabled(s, Dispatch(c, fail)) && i < |s.callers| && i != c
    ensures s.callers[i].Unlocking? ==>
              CallerMove(s.thrMax, s.vars, s.log, s.callers[c], fail).vars.alive == s.vars.alive
  {
    if s.callers[i].Unlocking? && s.callers[c].Counting? {
      TwoHolders(s.callers, i, c);
      CrewIsOk(s.workers);
      assert false;
    }
  }

  lemma OkUnderClose(s: Pool)
    requires Enabled(s, Destroy)
    ensures CloserMove(s.vars, s.log, s.closer).vars.alive == s.vars.alive
  {
  }

  /** Two callers do not both hold the lock. */
  lemma TwoHolders(cs: seq<Caller>, i: nat, j: nat)
    requires i < |cs| && j < |cs| && i != j
    ensures Callers(cs).lock >= DeskOf(cs[i]).lock + DeskOf(cs[j]).lock
  {
    var k := if j < i then j else j - 1;
    var others := cs[..i] + cs[i + 1..];
    assert others[k] == cs[j];
    TakeDeskOut(cs, i);
    TakeDeskOut(others, k);
    DeskIsOk(others[..k] + others[k + 1..]);
  }

  lemma StepKeepsJobs(s: Pool, a: Action)
    requires JobInv(s) && Enabled(s, a)
    ensures JobInv(Step(s, a))
  {
    hide Inv, WorkerJobs, CallerJobs, CallerOk, ThreadsNeeded;
    StepKeepsInv(s, a);
    StepKeepsThreads(s, a);
    CallersStayOk(s, a);
    match a
    case Call(job) => NewCall(s, job);
    case Work(i, fail) => WorkerStep(s, i, fail);
    case Dispatch(i, fail) => CallerStep(s, i, fail);
    case Destroy => CloserStep(s);
  }

  lemma StepKeepsThreads(s: Pool, a: Action)
    requires ThreadsNeeded(s.log, s.workers, s.callers) && Enabled(s, a)
    ensures var t := Step(s, a); ThreadsNeeded(t.log, t.workers, t.callers)
  {
    hide Callers;
    match a
    case Call(job) => JoinDesk(s.callers, Called(job));
    case Dispatch(i, fail) =>
      var m := CallerMove(s.thrMax, s.vars, s.log, s.callers[i], fail);
      var rest := MoveDesk(s.callers, i, m.pc);
    case _ =>
  }

  lemma NewCall(s: Pool, job: Job)
    requires WorkerJobs(s.log, s.workers) && CallerJobs(s.log, s.callers) && Enabled(s, Call(job))
    ensures var t := Step(s, Call(job)); WorkerJobs(t.log, t.workers) && CallerJobs(t.log, t.callers)
  {
    JoinOne(s.callers, QueuedJob, Called(job));
    JoinOne(s.callers, StrandedJob, Called(job));
  }

  lemma CloserStep(s: Pool)
    requires WorkerJobs(s.log, s.workers) && CallerJobs(s.log, s.callers) && Enabled(s, Destroy)
    ensures var t := Step(s, Destroy); WorkerJobs(t.log, t.workers) && CallerJobs(t.log, t.callers)
  {
    hide Total;
    var m := CloserMove(s.vars, s.log, s.closer);
    assert m.log.popped == s.log.popped && m.log.handled == s.log.handled;
    assert m.log.added == s.log.added && m.log.orphans == s.log.orphans;
  }

  lemma {:induction false} RunKeepsJobs(s: Pool, run: seq<Action>)
    requires JobInv(s) && Runs(s, run)
    ensures JobInv(After(s, run))
    decreases |run|
  {
    hide JobInv;
    if run != [] {
      StepKeepsJobs(s, run[0]);
      RunKeepsJobs(Step(s, run[0]), run[1..]);
    }
  }

  lemma ReachableJobs(s: Pool)
    requires Reachable(s)
    ensures JobInv(s)
  {
    hide Runs, After, JobInv;
    var thrMax: nat, run :| Runs(New(thrMax), run) && s == After(New(thrMax), run);
    NewHasNone(thrMax);
    RunKeepsJobs(New(thrMax), run);
  }

  lemma NewHasNone(thrMax: nat)
    ensures JobInv(New(thrMax))
  {
    hide Inv;
    assert Inv(New(thrMax)) by {
      NewInv(thrMax);
    }
    NoJobs<Worker>(HeldJob);
    assert Callers([]) == Desk(0, 0, 0, 0, 0, 0);
    NoJobs<Caller>(QueuedJob);
    NoJobs<Caller>(StrandedJob);
  }

  lemma NewInv(thrMax: nat)
    ensures Inv(New(thrMax))
  {
    hide Inv;
    assert Runs(New(thrMax), []) && After(New(thrMax), []) == New(thrMax);
    ReachableInv(New(thrMax));
  }

  lemma NoJobs<T>(f: T -> Option<Job>)
    ensures Total([], f) == multiset{}
  {
  }

  // ---- What it means ----

  /** In every reachable state the jobs popped are those handled and those that workers are
      about to handle; no worker that popped is without a job.  When no worker is between the
      pop and the handler, every popped job has been handled exactly once, with its own data. */
  lemma HandledOnce(s: Pool)
    requires Reachable(s)
    ensures multiset(s.log.popped) == multiset(s.log.handled) + Total(s.workers, HeldJob)
    ensures forall w <- s.workers :: !EmptyHanded(w)
    ensures (forall w <- s.workers :: !w.PopUnlock? && !w.Handling?) ==> multiset(s.log.popped) == multiset(s.log.handled)
  {
    ReachableJobs(s);
    if forall w <- s.workers :: !w.PopUnlock? && !w.Handling? {
      NothingHeld(s.workers);
    }
  }

  lemma {:induction false} NothingHeld(ws: seq<Worker>)
    requires forall w <- ws :: !w.PopUnlock? && !w.Handling?
    ensures Total(ws, HeldJob) == multiset{}
    decreases |ws|
  {
    if ws != [] {
      assert ws[|ws| - 1] in ws;
      NothingHeld(ws[..|ws| - 1]);
    }
  }

  /** Once destroy has waited and freed the pool, the jobs added are those handled and those
      that were left in the queue. */
  lemma NoneLost(s: Pool)
    requires Reachable(s) && s.closer == Freed(true)
    ensures multiset(s.log.added) == multiset(s.log.handled) + multiset(s.vars.queue)
  {
    HandledOnce(s);
    JobsInOrder(s);
    SignalledOnce(s);
  }

  /** The result of a dispatch call.  If it is true, the job was queued.  If it is false, it was
      not, save for the jobs that were queued when not even a first thread could be created;
      `orphans` counts those.  The jobs queued are those of these calls and of the calls that
      are still under way. */
  lemma ResultOfDispatch(s: Pool)
    requires Reachable(s)
    ensures multiset(s.log.added) == Total(s.callers, QueuedJob)
    ensures |Total(s.callers, StrandedJob)| == s.log.orphans
    ensures forall c <- s.callers :: c.Returned? && c.result ==> c.queued
    ensures s.log.orphans == 0 ==> forall c <- s.callers :: c.Returned? ==> (c.result <==> c.queued)
  {
    ReachableJobs(s);
    if s.log.orphans == 0 {
      forall c <- s.callers | c.Returned?
        ensures c.result <==> c.queued
      {
        assert CallerOk(s.thrMax, s.vars, c);
        var i :| 0 <= i < |s.callers| && s.callers[i] == c;
        var rest := MoveOne(s.callers, StrandedJob, i, c);
      }
    }
  }

  /** There are at most as many threads as dispatch calls that found no idle worker. */
  lemma NoSpareThreads(s: Pool)
    requires Reachable(s)
    ensures |s.workers| <= s.log.scarce
  {
    ReachableJobs(s);
    DeskIsOk(s.callers);
  }

  /** A call that is going to report success has a live worker to work for it when it gives
      up the lock, be it idle, busy or new. */
  lemma SomeoneWorks(s: Pool, c: Caller)
    requires Reachable(s) && s.thrMax > 0 && c in s.callers && c.Unlocking?
    ensures s.vars.alive > 0 && Workers(s.workers).alive > 0
  {
    ReachableJobs(s);
    assert CallerOk(s.thrMax, s.vars, c);
    DeskIsOk(s.callers);
  }
}
