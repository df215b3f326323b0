/**
 Who still needs the pool when `thrmgr_destroy` frees it: the exact condition, on the state in
 which destroy writes POOL_EXIT, under which no thread touches the freed pool.
 */
module PoolFree {
  import opened ThreadPool

  // ---- Use of the pool ----

  /** The next statement of a worker dereferences the pool. */
  predicate WorkerUses(w: Worker)
  {
    match w
    case AtTest(token) => token
    case Handling(job) => job.Some?
    case ExitPost(signal) => signal
    case Gone => false
    case _ => true
  }

  /** Until it returns, a dispatch call goes on to use the pool. */
  predicate CallerUses(c: Caller) { !c.Returned? }

  predicate Untouched(s: Pool)
  {
    (forall w <- s.workers :: !WorkerUses(w)) && forall c <- s.callers :: !CallerUses(c)
  }

  /** In every reachable state in which the pool is freed: it is untouched from then on exactly
      if no worker has yet to post pool_sem and every dispatch call has returned. */
  lemma FreedUntouched(s: Pool)
    requires Reachable(s) && s.closer.Freed?
    ensures Untouched(s) <==> ExitPost(true) !in s.workers && forall c <- s.callers :: c.Returned?
  {
    SignalledOnce(s);
  }

  // ---- No thread, none to come ----

  /** A worker lives or is about to see that it was the last, or a dispatch call that saw
      POOL_VALID may still create one. */
  ghost predicate Threads(s: Pool)
  {
    var ws := Workers(s.workers);
    ws.alive + ws.testing > 0 || (Callers(s.callers).inside > 0 && s.thrMax > 0)
  }

  /** A closing pool without threads and without a signal to come. */
  ghost predicate Empty(s: Pool)
  {
    Inv(s) && !s.vars.valid && !Threads(s) && Workers(s.workers).signal == 0
  }

  lemma EmptyWorker(v: Vars, log: Log, w: Worker, fail: bool, rest: Crew)
    requires CrewOk(rest) && WorkerEnabled(v, w, fail) && !v.valid
    requires var ws := AddCrew(rest, RoleOf(w)); ws.alive + ws.testing == 0 && ws.signal == 0
    ensures var m := WorkerMove(v, log, w, fail);
            var ws := AddCrew(rest, RoleOf(m.pc));
            !m.vars.valid && ws.alive + ws.testing == 0 && ws.signal == 0
  {
  }

  lemma EmptyCaller(thrMax: nat, v: Vars, log: Log, c: Caller, fail: bool, ws: Crew, rest: Desk)
    requires DeskOk(rest) && CallerEnabled(v, c) && !v.valid && CounterInv(thrMax, v, ws, AddDesk(rest, DeskOf(c)))
    requires AddDesk(rest, DeskOf(c)).inside == 0 || thrMax == 0
    ensures var m := CallerMove(thrMax, v, log, c, fail);
            !m.vars.valid && !Spawns(c, fail) && (AddDesk(rest, DeskOf(m.pc)).inside == 0 || thrMax == 0)
  {
  }

  lemma EmptyStep(s: Pool, a: Action)
    requires Empty(s) && Enabled(s, a)
    ensures Empty(Step(s, a))
  {
    hide LockInv, TokenInv, ShutdownInv, WorkerMove, CallerMove, RoleOf, DeskOf;
    StepKeepsInv(s, a);
    CrewIsOk(s.workers);
    DeskIsOk(s.callers);
    match a
    case Call(job) =>
      JoinDesk(s.callers, Called(job));
      assert DeskOf(Called(job)).inside == 0 by { CalledOutside(job); }
    case Work(i, fail) =>
      var rest := MoveCrew(s.workers, i, WorkerMove(s.vars, s.log, s.workers[i], fail).pc);
      EmptyWorker(s.vars, s.log, s.workers[i], fail, rest);
    case Dispatch(i, fail) =>
      var rest := MoveDesk(s.callers, i, CallerMove(s.thrMax, s.vars, s.log, s.callers[i], fail).pc);
      EmptyCaller(s.thrMax, s.vars, s.log, s.callers[i], fail, Workers(s.workers), rest);
    case Destroy =>
  }

  lemma CalledOutside(job: Job)
    ensures DeskOf(Called(job)).inside == 0
  {
  }

  lemma {:induction false} StaysEmpty(s: Pool, run: seq<Action>)
    requires Empty(s) && Runs(s, run)
    ensures Empty(After(s, run))
    decreases |run|
  {
    if run != [] {
      EmptyStep(s, run[0]);
      StaysEmpty(Step(s, run[0]), run[1..]);
    }
  }

  lemma NoSignaller(s: Pool)
    requires Workers(s.workers).signal == 0
    ensures ExitPost(true) !in s.workers
  {
    if ExitPost(true) in s.workers {
      var i :| 0 <= i < |s.workers| && s.workers[i] == ExitPost(true);
      var rest := MoveCrew(s.workers, i, Gone);
    }
  }

  // ---- Letting the threads leave ----

  /** This call can still be on its way when the pool is freed: one that sees POOL_EXIT under
      the lock returns before destroy gets the lock. */
  predicate Lingers(c: Caller) { !c.Returned? && !c.Locked? && !c.Refusing? }

  ghost predicate Closing(s: Pool) { Inv(s) && s.closer == AtLock }

  /** Somebody will be the last worker, or already is. */
  ghost predicate HasLast(s: Pool) { Threads(s) || Workers(s.workers).signal > 0 }

  /** The holder of the lock moves, or else some worker that lives. */
  lemma DrainAction(s: Pool) returns (a: Action)
    requires Closing(s) && (s.vars.locked || Workers(s.workers).alive > 0)
    ensures (a.Work? || a.Dispatch?) && Enabled(s, a)
    ensures a.Work? ==> !s.workers[a.w].ExitPost?
    ensures a.Dispatch? ==> !a.fail && !s.callers[a.c].Called? && !s.callers[a.c].Posting?
  {
    var ws, cs := Workers(s.workers), Callers(s.callers);
    if ws.lock > 0 {
      var i := SomeWorker(s.workers, (c: Crew) => c.lock);
      a := Work(i, false);
    } else if cs.lock > 0 {
      var i := SomeCaller(s.callers, (d: Desk) => d.lock);
      a := Dispatch(i, false);
    } else {
      var i := SomeWorker(s.workers, (c: Crew) => c.alive);
      a := Work(i, true);
    }
  }

  lemma DrainWorker(thrMax: nat, v: Vars, log: Log, w: Worker, fail: bool, rest: Crew, cs: Desk)
    requires CrewOk(rest) && DeskOk(cs) && WorkerEnabled(v, w, fail) && !w.ExitPost? && !v.valid
    requires CounterInv(thrMax, v, AddCrew(rest, RoleOf(w)), cs)
    ensures var m := WorkerMove(v, log, w, fail);
            var ws := AddCrew(rest, RoleOf(m.pc));
            var before := AddCrew(rest, RoleOf(w));
            before.alive + before.testing + before.signal > 0 ==> ws.alive + ws.testing + ws.signal > 0
  {
  }

  lemma DrainCaller(thrMax: nat, v: Vars, log: Log, c: Caller, ws: Crew, rest: Desk)
    requires CrewOk(ws) && DeskOk(rest) && CallerEnabled(v, c) && !v.valid && !c.Called? && !c.Posting?
    requires CounterInv(thrMax, v, ws, AddDesk(rest, DeskOf(c)))
    ensures var m := CallerMove(thrMax, v, log, c, false);
            && (Lingers(c) ==> Lingers(m.pc))
            && (AddDesk(rest, DeskOf(c)).inside > 0 && thrMax > 0 ==>
                  AddDesk(rest, DeskOf(m.pc)).inside > 0 || ws.alive > 0 || Spawns(c, false))
  {
  }

  lemma DrainStep(s: Pool, a: Action)
    requires Closing(s) && (a.Work? || a.Dispatch?) && Enabled(s, a)
    requires a.Work? ==> !s.workers[a.w].ExitPost?
    requires a.Dispatch? ==> !a.fail && !s.callers[a.c].Called? && !s.callers[a.c].Posting?
    ensures var t := Step(s, a);
            && Closing(t) && Effort(t) < Effort(s) && |t.callers| == |s.callers|
            && (HasLast(s) ==> HasLast(t))
            && forall k | 0 <= k < |s.callers| :: Lingers(s.callers[k]) ==> Lingers(t.callers[k])
  {
    hide LockInv, TokenInv, WorkerMove, CallerMove, RoleOf, DeskOf, Lingers, Effort;
    StepKeepsInv(s, a);
    ClosingStep(s, a);
    CrewIsOk(s.workers);
    DeskIsOk(s.callers);
    match a
    case Work(i, fail) =>
      var rest := MoveCrew(s.workers, i, WorkerMove(s.vars, s.log, s.workers[i], fail).pc);
      DrainWorker(s.thrMax, s.vars, s.log, s.workers[i], fail, rest, Callers(s.callers));
    case Dispatch(i, _) =>
      var rest := MoveDesk(s.callers, i, CallerMove(s.thrMax, s.vars, s.log, s.callers[i], false).pc);
      DrainCaller(s.thrMax, s.vars, s.log, s.callers[i], Workers(s.workers), rest);
      JoinCrew(s.workers, AtLoop);
      NewWorkerLives();
  }

  lemma NewWorkerLives()
    ensures var w := RoleOf(AtLoop); w.alive == 1 && w.testing == 0 && w.signal == 0
  {
  }

  /** While destroy waits for the lock, all workers can leave, up to the last one's post. */
  lemma {:induction false} Drain(s: Pool) returns (run: seq<Action>)
    requires Closing(s)
    ensures Runs(s, run) && Calls(run) == 0
    ensures var t := After(s, run);
            && Closing(t) && !t.vars.locked && Workers(t.workers).alive == 0 && |t.callers| == |s.callers|
            && (HasLast(s) ==> HasLast(t))
            && forall k | 0 <= k < |s.callers| :: Lingers(s.callers[k]) ==> Lingers(t.callers[k])
    decreases Effort(s)
  {
    CrewIsOk(s.workers);
    DeskIsOk(s.callers);
    if s.vars.locked || Workers(s.workers).alive > 0 {
      var a := DrainAction(s);
      DrainStep(s, a);
      var rest := Drain(Step(s, a));
      run := [a] + rest;
      assert run[1..] == rest;
    } else {
      run := [];
    }
  }

  /** From there destroy reads thr_alive == 0 and frees the pool at once. */
  lemma FreeNow(s: Pool, run: seq<Action>) returns (all: seq<Action>)
    requires Inv(s) && Runs(s, run) && Calls(run) == 0
    requires Closing(After(s, run)) && !After(s, run).vars.locked && Workers(After(s, run).workers).alive == 0
    ensures Runs(s, all) && Calls(all) == 0
    ensures var t, u := After(s, run), After(s, all);
            u.closer == Freed(false) && u.workers == t.workers && u.callers == t.callers
  {
    var t := After(s, run);
    DeskIsOk(t.callers);
    CrewIsOk(t.workers);
    all := run;
    RunThenStep(s, all, Destroy);
    NoMoreCalls(all);
    all := all + [Destroy];
    RunThenStep(s, all, Destroy);
    NoMoreCalls(all);
    all := all + [Destroy];
    RunThenStep(s, all, Destroy);
    NoMoreCalls(all);
    all := all + [Destroy];
  }

  lemma {:induction false} NoMoreCalls(run: seq<Action>)
    ensures Calls(run + [Destroy]) == Calls(run)
    decreases |run|
  {
    if run == [] {
      assert [Destroy][1..] == [];
    } else {
      assert (run + [Destroy])[1..] == run[1..] + [Destroy];
      NoMoreCalls(run[1..]);
    }
  }

  // ---- The exact conditions ----

  /** Destroy has seen POOL_VALID, and its next step writes POOL_EXIT. */
  ghost predicate Begins(s: Pool) { Inv(s) && s.closer == Checked }

  lemma ExitWritten(s: Pool)
    requires Begins(s)
    ensures Enabled(s, Destroy) && var t := Step(s, Destroy);
            && Closing(t) && !t.vars.valid && t.workers == s.workers && t.callers == s.callers
            && (Threads(t) <==> Threads(s)) && Workers(t.workers).signal == 0
  {
    CrewIsOk(s.workers);
    StepKeepsInv(s, Destroy);
  }

  /** The pool can be freed under its last worker exactly if, when POOL_EXIT is written, a
      worker lives, is leaving, or may still be created: whatever the dispatch calls do. */
  lemma FreedUnderWorkerIff(s: Pool)
    requires Begins(s)
    ensures Enabled(s, Destroy)
    ensures (exists run :: var t := Step(s, Destroy);
                           Runs(t, run) && After(t, run).closer.Freed? && ExitPost(true) in After(t, run).workers)
            <==> Threads(s)
  {
    hide Inv, Step;
    ExitWritten(s);
    var t := Step(s, Destroy);
    if Threads(s) {
      var all := FreeUnderLast(t);
    } else {
      forall run | Runs(t, run)
        ensures ExitPost(true) !in After(t, run).workers
      {
        StaysEmpty(t, run);
        NoSignaller(After(t, run));
      }
    }
  }

  /** A run that frees the pool without waiting while the last worker has yet to post. */
  lemma FreeUnderLast(s: Pool) returns (all: seq<Action>)
    requires Closing(s) && Threads(s)
    ensures Runs(s, all) && Calls(all) == 0
    ensures After(s, all).closer == Freed(false) && ExitPost(true) in After(s, all).workers
  {
    var run := Drain(s);
    var t := After(s, run);
    CrewIsOk(t.workers);
    DeskIsOk(t.callers);
    var i := SomeWorker(t.workers, (c: Crew) => c.signal);
    var rest := MoveCrew(t.workers, i, t.workers[i]);
    assert t.workers[i] == ExitPost(true);
    all := FreeNow(s, run);
    assert After(s, all).workers[i] == ExitPost(true);
  }

  /** No worker lives or leaves, and every dispatch call has returned or is about to be
      refused under the lock. */
  ghost predicate Quiet(s: Pool)
  {
    Workers(s.workers).alive + Workers(s.workers).testing == 0 && forall c <- s.callers :: !Lingers(c)
  }

  lemma QuietInside(s: Pool)
    requires Quiet(s)
    ensures !Threads(s)
  {
    DeskIsOk(s.callers);
    if Callers(s.callers).inside > 0 {
      var i := SomeCaller(s.callers, (d: Desk) => d.inside);
      assert Lingers(s.callers[i]);
    }
  }

  /** On its way from a quiet start to the free, destroy never has to wait. */
  ghost predicate QuietClosing(s: Pool)
  {
    && Empty(s) && (forall c <- s.callers :: !Lingers(c))
    && match s.closer
       case AtLock => true
       case Reading => true
       case Releasing(wait) => !wait
       case Freed(_) => !s.vars.locked
       case _ => false
  }

  lemma QuietStep(s: Pool, a: Action)
    requires QuietClosing(s) && Enabled(s, a) && !a.Call?
    ensures QuietClosing(Step(s, a))
  {
    hide LockInv, TokenInv, ShutdownInv;
    EmptyStep(s, a);
    CrewIsOk(s.workers);
    DeskIsOk(s.callers);
    forall c <- Step(s, a).callers
      ensures !Lingers(c)
    {
      var i :| 0 <= i < |Step(s, a).callers| && Step(s, a).callers[i] == c;
      assert s.callers[i] in s.callers;
    }
  }

  lemma {:induction false} StaysQuiet(s: Pool, run: seq<Action>)
    requires QuietClosing(s) && Runs(s, run) && Calls(run) == 0
    ensures QuietClosing(After(s, run))
    decreases |run|
  {
    hide QuietClosing, Step;
    if run != [] {
      QuietStep(s, run[0]);
      StaysQuiet(Step(s, run[0]), run[1..]);
    }
  }

  lemma WorkerRests(w: Worker, rest: Crew)
    requires CrewOk(rest)
    requires var ws := AddCrew(rest, RoleOf(w)); ws.alive + ws.testing == 0 && ws.signal == 0 && ws.lock == 0
    ensures !WorkerUses(w)
  {
  }

  lemma CallerRests(c: Caller, rest: Desk)
    requires DeskOk(rest) && AddDesk(rest, DeskOf(c)).lock == 0 && !Lingers(c)
    ensures !CallerUses(c)
  {
  }

  lemma QuietFreed(s: Pool)
    requires QuietClosing(s) && s.closer.Freed?
    ensures Untouched(s)
  {
    hide TokenInv, ShutdownInv, CounterInv, RoleOf, DeskOf, WorkerUses, CallerUses, Lingers;
    CrewIsOk(s.workers);
    DeskIsOk(s.callers);
    forall w <- s.workers
      ensures !WorkerUses(w)
    {
      var i :| 0 <= i < |s.workers| && s.workers[i] == w;
      var rest := MoveCrew(s.workers, i, w);
      WorkerRests(w, rest);
    }
    forall c <- s.callers
      ensures !CallerUses(c)
    {
      var i :| 0 <= i < |s.callers| && s.callers[i] == c;
      var rest := MoveDesk(s.callers, i, c);
      CallerRests(c, rest);
    }
  }

  /** As long as no new call begins, freeing the pool is safe, on every schedule, exactly if
      the pool was quiet when POOL_EXIT was written. */
  lemma FreeSafeIff(s: Pool)
    requires Begins(s)
    ensures Enabled(s, Destroy)
    ensures (forall run :: var t := Step(s, Destroy);
                           Runs(t, run) && Calls(run) == 0 && After(t, run).closer.Freed? ==> Untouched(After(t, run)))
            <==> Quiet(s)
  {
    hide Inv, Step;
    ExitWritten(s);
    var t := Step(s, Destroy);
    if Quiet(s) {
      QuietInside(s);
      assert QuietClosing(t);
      forall run | Runs(t, run) && Calls(run) == 0 && After(t, run).closer.Freed?
        ensures Untouched(After(t, run))
      {
        StaysQuiet(t, run);
        QuietFreed(After(t, run));
      }
    } else if Workers(s.workers).alive + Workers(s.workers).testing > 0 {
      var all := FreeUnderLast(t);
    } else {
      CrewIsOk(s.workers);
      var k :| 0 <= k < |s.callers| && Lingers(s.callers[k]);
      var run := Drain(t);
      var all := FreeNow(t, run);
      assert CallerUses(After(t, all).callers[k]);
    }
  }

  /** A dispatch call that begins once POOL_EXIT is written can always be overtaken: whatever
      the state, some schedule frees the pool before that call has even locked the mutex. */
  lemma CallTooLate(s: Pool, job: Job) returns (run: seq<Action>)
    requires Closing(s)
    ensures Runs(s, run) && Calls(run) == 1
    ensures After(s, run).closer.Freed? && !Untouched(After(s, run))
  {
    hide Inv;
    var a := Call(job);
    StepKeepsInv(s, a);
    var t := Step(s, a);
    var k := |s.callers|;
    assert Lingers(t.callers[k]);
    var rest := Drain(t);
    rest := FreeNow(t, rest);
    run := [a] + rest;
    assert run[1..] == rest;
    assert CallerUses(After(t, rest).callers[k]);
  }

  // ---- Runs that free the pool too early ----

  /** A first dispatch up to the creation of a thread: the job is queued. */
  lemma FirstJob() returns (s: Pool)
    ensures Reachable(s) && s.callers == [Creating(7)] && s.workers == [] && s.closer == NotCalled
    ensures s.vars == Vars(true, 0, 0, 0, 0, true, [7])
  {
    var d := Dispatch(0, false);
    assert Runs(New(1), []);
    s := Next(New(1), Call(7));
    s := Next(s, d); s := Next(s, d); s := Next(s, d); s := Next(s, d);
  }

  /** The same call up to its post: the one worker has started. */
  lemma FirstDispatch() returns (s: Pool)
    ensures Reachable(s) && s.callers == [Posting(7)] && s.workers == [AtLoop] && s.closer == NotCalled
    ensures s.vars == Vars(true, 1, 0, 0, 0, false, [7])
  {
    var d := Dispatch(0, false);
    s := FirstJob();
    s := Next(s, d); s := Next(s, d); s := Next(s, d);
  }

  lemma {:induction false} ReachableRun(s: Pool, run: seq<Action>)
    requires Reachable(s) && Runs(s, run)
    ensures Reachable(After(s, run))
    decreases |run|
  {
    hide Reachable;
    if run != [] {
      var t := Next(s, run[0]);
      ReachableRun(t, run[1..]);
    }
  }

  /** Destroy has written POOL_EXIT, and the one worker has just started. */
  lemma OneWorkerCloses() returns (s: Pool)
    ensures Reachable(s) && s.closer == AtLock && s.workers == [AtLoop] && s.callers == [Posting(7)]
    ensures s.vars == Vars(false, 1, 0, 0, 0, false, [7])
  {
    s := FirstDispatch();
    s := Next(s, Destroy); s := Next(s, Destroy);
  }

  lemma OneWorker(s: Pool)
    requires s.workers == [AtLoop]
    ensures Threads(s)
  {
    JoinCrew([], AtLoop);
    assert s.workers == [] + [AtLoop];
  }

  /** One dispatch and then destroy is enough: the only worker leaves while destroy is about to
      lock, destroy reads thr_alive == 0 and frees the pool, and that worker has yet to post. */
  lemma FreedUnderLastWorker()
    ensures exists s :: Reachable(s) && s.closer == Freed(false) && ExitPost(true) in s.workers
  {
    hide Reachable, Inv, Runs, After, Threads, Workers, Callers;
    var s := OneWorkerCloses();
    ReachableInv(s);
    OneWorker(s);
    var run := FreeUnderLast(s);
    ReachableRun(s, run);
    assert Reachable(After(s, run));
  }

  /** Destroy wakes the one worker and waits for it; the dispatch call has not posted yet. */
  lemma DestroyWaits() returns (s: Pool)
    ensures Reachable(s) && s.closer == AwaitLast && s.workers == [AtLoop] && s.callers == [Posting(7)]
    ensures s.vars == Vars(false, 1, 0, 1, 0, false, [7])
  {
    var d := Destroy;
    s := OneWorkerCloses();
    s := Next(s, d); s := Next(s, d);
    assert s.closer == Waking(1) && s.vars == Vars(false, 1, 0, 0, 0, true, [7]);
    s := Next(s, d); s := Next(s, d); s := Next(s, d);
  }

  lemma LastWorkerExits() returns (s: Pool)
    ensures Reachable(s) && s.closer == AwaitLast && s.workers == [ExitDec] && s.callers == [Posting(7)]
    ensures s.vars == Vars(false, 1, 0, 1, 0, true, [7])
  {
    s := DestroyWaits();
    s := Next(s, Work(0, false)); s := Next(s, Work(0, false));
  }

  lemma LastWorkerSignals() returns (s: Pool)
    ensures Reachable(s) && s.closer == AwaitLast && s.workers == [ExitUnlock(true)] && s.callers == [Posting(7)]
    ensures s.vars == Vars(false, 0, 0, 1, 0, true, [7])
  {
    s := LastWorkerExits();
    s := Next(s, Work(0, false)); s := Next(s, Work(0, false));
  }

  /** Waiting does not make the free safe for a dispatch call: it has unlocked and is about to
      post pool_sig_sem when destroy has waited for the last worker and freed the pool. */
  lemma FreedUnderDispatch()
    ensures exists s :: Reachable(s) && s.closer == Freed(true) && Posting(7) in s.callers
  {
    var w := Work(0, false);
    var s := LastWorkerSignals();
    s := Next(s, w); s := Next(s, w); s := Next(s, Destroy);
    assert s.callers[0] == Posting(7);
  }
}
