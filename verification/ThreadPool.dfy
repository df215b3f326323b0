/**
 The worker thread pool as a transition system.

 Every statement of `thrmgr_dispatch`, `thrmgr_worker` and `thrmgr_destroy` that touches
 shared state is one atomic step; any thread may run between two of them.  A thread is
 its program counter.  The mutex is a flag, the two semaphores are counters.  In
 particular `state = POOL_EXIT` is written without the lock, a worker runs before
 `thr_alive` counts it, and a dispatcher posts after it has released the lock.
 */
module ThreadPool {
  import opened ByteStrings

  type Job = int

  /** Program counter of a thread running `thrmgr_worker`. */
  datatype Worker =
    | AtLoop                            // about to test `state != POOL_EXIT`
    | AtEnter                           // about to increment thr_idle
    | AtWait                            // in swartz_sem_wait(pool_sig_sem)
    | Woken(token: bool)                // wait returned; about to decrement thr_idle
    | AtTest(token: bool)               // about to test the result and the state
    | AtPopLock                         // about to lock for the pop
    | Popping                           // holds the lock, about to pop
    | PopUnlock(job: Option<Job>)       // holds the lock, about to unlock
    | Handling(job: Option<Job>)        // runs the handler if there is a job
    | AtExitLock                        // left the loop, about to lock
    | ExitDec                           // holds the lock, about to decrement thr_alive
    | ExitTest                          // holds the lock, about to test for the last thread
    | ExitUnlock(signal: bool)          // holds the lock, about to unlock
    | ExitPost(signal: bool)            // about to post pool_sem if it must
    | Gone

  /** Program counter of a call of `thrmgr_dispatch`. */
  datatype Caller =
    | Called(job: Job)
    | Locked(job: Job)                  // holds the lock, about to test the state
    | Adding(job: Job)                  // holds the lock, about to queue the job
    | Deciding(job: Job)                // holds the lock, about to compare the counters
    | Creating(job: Job)                // holds the lock, about to create a thread
    | Counting(job: Job)                // holds the lock, about to increment thr_alive
    | Unlocking(job: Job)               // holds the lock, about to unlock
    | Posting(job: Job)                 // about to post pool_sig_sem
    | Refusing(job: Job, queued: bool)  // holds the lock, about to unlock and return false
    | Returned(job: Job, queued: bool, result: bool)

  /** Program counter of the one call of `thrmgr_destroy`. */
  datatype Closer =
    | NotCalled
    | Checked                           // saw POOL_VALID, about to write POOL_EXIT
    | AtLock
    | Reading                           // holds the lock, about to read thr_alive
    | Waking(left: nat)                 // holds the lock, still has `left` posts to make
    | Releasing(wait: bool)             // holds the lock, about to unlock
    | AwaitLast                         // in swartz_sem_wait(pool_sem)
    | Freed(waited: bool)               // semaphores, mutex, queue and pool are gone

  /** The shared variables of the pool. */
  datatype Vars = Vars(
    valid: bool,                        // state == POOL_VALID
    alive: int,                         // thr_alive
    idle: int,                          // thr_idle
    sig: nat,                           // count of pool_sig_sem
    done: nat,                          // count of pool_sem
    locked: bool,                       // pool_mutex
    queue: seq<Job>)

  /** Bookkeeping that no step reads. */
  datatype Log = Log(
    added: seq<Job>,                    // jobs queued so far
    popped: seq<Job>,                   // jobs popped so far
    handled: seq<Job>,                  // jobs given to the handler so far
    scarce: nat,                        // decisions of dispatch calls that found no idle worker
    orphans: nat,                       // jobs left queued when the first thread was not created
    dropped: nat,                       // tokens a worker took and left with
    closePosts: nat,                    // posts to pool_sig_sem made by destroy
    consumed: nat)                      // tokens destroy took from pool_sem

  datatype Pool = Pool(
    thrMax: nat,
    vars: Vars,
    log: Log,
    workers: seq<Worker>,
    callers: seq<Caller>,
    closer: Closer)

  /** Who moves, and how the environment decides: `fail` is a timeout for a waiting
      worker, a failed allocation for an adding caller and a failed thread creation for a
      creating one. */
  datatype Action =
    | Call(job: Job)
    | Work(w: nat, fail: bool)
    | Dispatch(c: nat, fail: bool)
    | Destroy

  /** Where a thread is after a step, and what the step did to the shared state. */
  datatype Moved<PC> = Moved(pc: PC, vars: Vars, log: Log)

  function New(thrMax: nat): Pool
  {
    Pool(thrMax, Vars(true, 0, 0, 0, 0, false, []), Log([], [], [], 0, 0, 0, 0, 0), [], [], NotCalled)
  }

  // ---- Which thread may move ----

  predicate WorkerEnabled(v: Vars, w: Worker, fail: bool)
  {
    match w
    case AtWait => fail || v.sig > 0
    case AtPopLock => !v.locked
    case AtExitLock => !v.locked
    case Gone => false
    case _ => true
  }

  predicate CallerEnabled(v: Vars, c: Caller)
  {
    match c
    case Called(_) => !v.locked
    case Returned(_, _, _) => false
    case _ => true
  }

  predicate CloserEnabled(v: Vars, x: Closer)
  {
    match x
    case AtLock => !v.locked
    case AwaitLast => v.done > 0
    case Freed(_) => false
    case _ => true
  }

  predicate Enabled(s: Pool, a: Action)
  {
    && !s.closer.Freed?
    && match a
       case Call(_) => true
       case Work(i, fail) => i < |s.workers| && WorkerEnabled(s.vars, s.workers[i], fail)
       case Dispatch(i, _) => i < |s.callers| && CallerEnabled(s.vars, s.callers[i])
       case Destroy => CloserEnabled(s.vars, s.closer)
  }

  // ---- The steps ----

  function WorkerMove(v: Vars, log: Log, w: Worker, fail: bool): Moved<Worker>
    requires WorkerEnabled(v, w, fail)
  {
    match w
    case AtLoop => Moved(if v.valid then AtEnter else AtExitLock, v, log)
    case AtEnter => Moved(AtWait, v.(idle := v.idle + 1), log)
    case AtWait =>
      if fail then Moved(Woken(false), v, log) else Moved(Woken(true), v.(sig := v.sig - 1), log)
    case Woken(token) => Moved(AtTest(token), v.(idle := v.idle - 1), log)
    case AtTest(token) =>
      if !token then Moved(AtExitLock, v, log)
      else if !v.valid then Moved(AtExitLock, v, log.(dropped := log.dropped + 1))
      else Moved(AtPopLock, v, log)
    case AtPopLock => Moved(Popping, v.(locked := true), log)
    case Popping =>
      if v.queue == [] then Moved(PopUnlock(None), v, log)
      else Moved(PopUnlock(Some(v.queue[0])), v.(queue := v.queue[1..]),
                 log.(popped := log.popped + [v.queue[0]]))
    case PopUnlock(job) => Moved(Handling(job), v.(locked := false), log)
    case Handling(job) => Moved(AtLoop, v, if job.Some? then log.(handled := log.handled + [job.value]) else log)
    case AtExitLock => Moved(ExitDec, v.(locked := true), log)
    case ExitDec => Moved(ExitTest, v.(alive := v.alive - 1), log)
    case ExitTest => Moved(ExitUnlock(v.alive == 0 && !v.valid), v, log)
    case ExitUnlock(signal) => Moved(ExitPost(signal), v.(locked := false), log)
    case ExitPost(signal) => Moved(Gone, if signal then v.(done := v.done + 1) else v, log)
  }

  function CallerMove(thrMax: nat, v: Vars, log: Log, c: Caller, fail: bool): Moved<Caller>
    requires CallerEnabled(v, c)
  {
    match c
    case Called(job) => Moved(Locked(job), v.(locked := true), log)
    case Locked(job) => Moved(if v.valid then Adding(job) else Refusing(job, false), v, log)
    case Adding(job) =>
      if fail then Moved(Refusing(job, false), v, log)
      else Moved(Deciding(job), v.(queue := v.queue + [job]), log.(added := log.added + [job]))
    case Deciding(job) =>
      Moved(if v.idle == 0 && v.alive < thrMax then Creating(job) else Unlocking(job), v,
            if v.idle == 0 then log.(scarce := log.scarce + 1) else log)
    case Creating(job) =>
      if !fail then Moved(Counting(job), v, log)
      else if v.alive == 0 then Moved(Refusing(job, true), v, log.(orphans := log.orphans + 1))
      else Moved(Unlocking(job), v, log)
    case Counting(job) => Moved(Unlocking(job), v.(alive := v.alive + 1), log)
    case Unlocking(job) => Moved(Posting(job), v.(locked := false), log)
    case Posting(job) => Moved(Returned(job, true, true), v.(sig := v.sig + 1), log)
    case Refusing(job, queued) => Moved(Returned(job, queued, false), v.(locked := false), log)
  }

  function CloserMove(v: Vars, log: Log, x: Closer): Moved<Closer>
    requires CloserEnabled(v, x)
  {
    match x
    case NotCalled => Moved(Checked, v, log)
    case Checked => Moved(AtLock, v.(valid := false), log)
    case AtLock => Moved(Reading, v.(locked := true), log)
    case Reading => Moved(if v.alive > 0 then Waking(v.alive) else Releasing(false), v, log)
    case Waking(left) =>
      if left == 0 then Moved(Releasing(true), v, log)
      else Moved(Waking(left - 1), v.(sig := v.sig + 1), log.(closePosts := log.closePosts + 1))
    case Releasing(wait) => Moved(if wait then AwaitLast else Freed(false), v.(locked := false), log)
    case AwaitLast => Moved(Freed(true), v.(done := v.done - 1), log.(consumed := log.consumed + 1))
  }

  /** Does this step of a dispatch call start a new worker thread? */
  predicate Spawns(c: Caller, fail: bool) { c.Creating? && !fail }

  function Step(s: Pool, a: Action): Pool
    requires Enabled(s, a)
  {
    match a
    case Call(job) => s.(callers := s.callers + [Called(job)])
    case Work(i, fail) =>
      var m := WorkerMove(s.vars, s.log, s.workers[i], fail);
      s.(workers := s.workers[i := m.pc], vars := m.vars, log := m.log)
    case Dispatch(i, fail) =>
      var m := CallerMove(s.thrMax, s.vars, s.log, s.callers[i], fail);
      s.(callers := s.callers[i := m.pc], vars := m.vars, log := m.log,
         workers := if Spawns(s.callers[i], fail) then s.workers + [AtLoop] else s.workers)
    case Destroy =>
      var m := CloserMove(s.vars, s.log, s.closer);
      s.(closer := m.pc, vars := m.vars, log := m.log)
  }

  /** `run` is a sequence of enabled actions from `s`. */
  ghost predicate Runs(s: Pool, run: seq<Action>)
    decreases |run|
  {
    run == [] || (Enabled(s, run[0]) && Runs(Step(s, run[0]), run[1..]))
  }

  ghost function After(s: Pool, run: seq<Action>): Pool
    requires Runs(s, run)
    decreases |run|
  {
    if run == [] then s else After(Step(s, run[0]), run[1..])
  }

  // ---- Counting threads by program counter ----

  /** How many workers are in each role. */
  datatype Crew = Crew(
    alive: int,         // counted, or about to be counted, by thr_alive
    idle: int,          // counted by thr_idle
    early: int,         // hold a token and have not tested the state yet
    late: int,          // hold a token and are going to pop
    lock: int,          // hold the mutex
    busy: int,          // hold the mutex for anything but the last signal
    testing: int,       // decremented thr_alive and have not tested it yet
    mayWait: int,       // wait on pool_sig_sem now or next
    signal: int,        // will post pool_sem
    effort: int)        // steps still to take once the pool is closing

  /** An upper bound on the steps a worker still takes when it reads POOL_EXIT. */
  function WorkerEffort(w: Worker): nat
  {
    match w
    case AtEnter => 14 case AtWait => 13 case Woken(_) => 12 case AtTest(_) => 11
    case AtPopLock => 10 case Popping => 9 case PopUnlock(_) => 8 case Handling(_) => 7
    case AtLoop => 6 case AtExitLock => 5 case ExitDec => 4 case ExitTest => 3
    case ExitUnlock(_) => 2 case ExitPost(_) => 1 case Gone => 0
  }

  function RoleOf(w: Worker): Crew
  {
    var lock := if w.Popping? || w.PopUnlock? || w.ExitDec? || w.ExitTest? || w.ExitUnlock? then 1 else 0;
    Crew(
      alive := if w.ExitTest? || w.ExitUnlock? || w.ExitPost? || w.Gone? then 0 else 1,
      idle := if w.AtWait? || w.Woken? then 1 else 0,
      early := if (w.Woken? || w.AtTest?) && w.token then 1 else 0,
      late := if w.AtPopLock? || w.Popping? then 1 else 0,
      lock := lock,
      busy := if w == ExitUnlock(true) then 0 else lock,
      testing := if w.ExitTest? then 1 else 0,
      mayWait := if w.AtEnter? || w.AtWait? then 1 else 0,
      signal := if (w.ExitUnlock? || w.ExitPost?) && w.signal then 1 else 0,
      effort := WorkerEffort(w))
  }

  function AddCrew(a: Crew, b: Crew): Crew
  {
    Crew(a.alive + b.alive, a.idle + b.idle, a.early + b.early, a.late + b.late, a.lock + b.lock,
         a.busy + b.busy, a.testing + b.testing, a.mayWait + b.mayWait, a.signal + b.signal,
         a.effort + b.effort)
  }

  /** Linear facts that hold of one worker and carry over to any number of them. */
  predicate CrewOk(c: Crew)
  {
    && 0 <= c.idle <= c.alive && 0 <= c.mayWait <= c.alive
    && 0 <= c.early && 0 <= c.late && 0 <= c.testing <= c.busy <= c.lock && 0 <= c.signal && 0 <= c.effort
    && c.lock <= c.busy + c.signal
  }

  function Workers(ws: seq<Worker>): Crew
  {
    if ws == [] then Crew(0, 0, 0, 0, 0, 0, 0, 0, 0, 0)
    else AddCrew(Workers(ws[..|ws| - 1]), RoleOf(ws[|ws| - 1]))
  }

  /** How many dispatch calls are in each role. */
  datatype Desk = Desk(
    lock: int,          // hold the mutex
    inside: int,        // saw POOL_VALID and may still change the pool
    growing: int,       // are creating a thread
    counting: int,      // created a thread that thr_alive does not count yet
    pending: int,       // queued a job and have not posted for it
    effort: int)        // steps still to take, including those of a thread they start

  function CallerEffort(c: Caller): nat
  {
    match c
    case Called(_) => 16 case Locked(_) => 15 case Adding(_) => 14 case Deciding(_) => 13
    case Creating(_) => 12 case Counting(_) => 5 case Unlocking(_) => 2 case Posting(_) => 1
    case Refusing(_, _) => 1 case Returned(_, _, _) => 0
  }

  function CloserEffort(thrMax: nat, x: Closer): nat
  {
    match x
    case NotCalled => thrMax + 7 case Checked => thrMax + 6 case AtLock => thrMax + 5
    case Reading => thrMax + 4 case Waking(left) => left + 3 case Releasing(_) => 2
    case AwaitLast => 1 case Freed(_) => 0
  }

  function DeskOf(c: Caller): Desk
  {
    Desk(
      lock := if c.Called? || c.Posting? || c.Returned? then 0 else 1,
      inside := if c.Adding? || c.Deciding? || c.Creating? || c.Counting? then 1 else 0,
      growing := if c.Creating? || c.Counting? then 1 else 0,
      counting := if c.Counting? then 1 else 0,
      pending := if c.Deciding? || c.Creating? || c.Counting? || c.Unlocking? || c.Posting? then 1 else 0,
      effort := CallerEffort(c))
  }

  function AddDesk(a: Desk, b: Desk): Desk
  {
    Desk(a.lock + b.lock, a.inside + b.inside, a.growing + b.growing, a.counting + b.counting,
         a.pending + b.pending, a.effort + b.effort)
  }

  predicate DeskOk(d: Desk)
  {
    0 <= d.counting <= d.growing <= d.inside <= d.lock && 0 <= d.pending && 0 <= d.effort
  }

  function Callers(cs: seq<Caller>): Desk
  {
    if cs == [] then Desk(0, 0, 0, 0, 0, 0)
    else AddDesk(Callers(cs[..|cs| - 1]), DeskOf(cs[|cs| - 1]))
  }

  function LockX(x: Closer): int { if x.Reading? || x.Waking? || x.Releasing? then 1 else 0 }

  lemma {:induction false} CrewIsOk(ws: seq<Worker>)
    ensures CrewOk(Workers(ws))
  {
    if ws != [] {
      CrewIsOk(ws[..|ws| - 1]);
    }
  }

  lemma {:induction false} DeskIsOk(cs: seq<Caller>)
    ensures DeskOk(Callers(cs))
  {
    if cs != [] {
      DeskIsOk(cs[..|cs| - 1]);
    }
  }

  lemma SwapCrew(a: Crew, b: Crew, c: Crew)
    ensures AddCrew(AddCrew(a, b), c) == AddCrew(AddCrew(a, c), b)
  {
  }

  lemma {:induction false} TakeCrewOut(ws: seq<Worker>, i: nat)
    requires i < |ws|
    ensures Workers(ws) == AddCrew(Workers(ws[..i] + ws[i + 1..]), RoleOf(ws[i]))
  {
    var n := |ws| - 1;
    var others := ws[..i] + ws[i + 1..];
    if i < n {
      assert others[..n - 1] == ws[..n][..i] + ws[..n][i + 1..] && others[n - 1] == ws[n];
      TakeCrewOut(ws[..n], i);
      SwapCrew(Workers(others[..n - 1]), RoleOf(ws[i]), RoleOf(ws[n]));
    } else {
      assert others == ws[..n];
    }
  }

  /** The tally of all but number `i`, and what moving that one does. */
  lemma MoveCrew(ws: seq<Worker>, i: nat, w: Worker) returns (rest: Crew)
    requires i < |ws|
    ensures CrewOk(rest)
    ensures Workers(ws) == AddCrew(rest, RoleOf(ws[i]))
    ensures Workers(ws[i := w]) == AddCrew(rest, RoleOf(w))
  {
    var others := ws[..i] + ws[i + 1..];
    assert ws[i := w][..i] + ws[i := w][i + 1..] == others;
    TakeCrewOut(ws, i);
    TakeCrewOut(ws[i := w], i);
    CrewIsOk(others);
    rest := Workers(others);
  }

  lemma SwapDesk(a: Desk, b: Desk, c: Desk)
    ensures AddDesk(AddDesk(a, b), c) == AddDesk(AddDesk(a, c), b)
  {
  }

  lemma {:induction false} TakeDeskOut(cs: seq<Caller>, i: nat)
    requires i < |cs|
    ensures Callers(cs) == AddDesk(Callers(cs[..i] + cs[i + 1..]), DeskOf(cs[i]))
  {
    var n := |cs| - 1;
    var others := cs[..i] + cs[i + 1..];
    if i < n {
      assert others[..n - 1] == cs[..n][..i] + cs[..n][i + 1..] && others[n - 1] == cs[n];
      TakeDeskOut(cs[..n], i);
      SwapDesk(Callers(others[..n - 1]), DeskOf(cs[i]), DeskOf(cs[n]));
    } else {
      assert others == cs[..n];
    }
  }

  /** The tally of all but number `i`, and what moving that one does. */
  lemma MoveDesk(cs: seq<Caller>, i: nat, c: Caller) returns (rest: Desk)
    requires i < |cs|
    ensures DeskOk(rest)
    ensures Callers(cs) == AddDesk(rest, DeskOf(cs[i]))
    ensures Callers(cs[i := c]) == AddDesk(rest, DeskOf(c))
  {
    var others := cs[..i] + cs[i + 1..];
    assert cs[i := c][..i] + cs[i := c][i + 1..] == others;
    TakeDeskOut(cs, i);
    TakeDeskOut(cs[i := c], i);
    DeskIsOk(others);
    rest := Callers(others);
  }

  lemma JoinCrew(ws: seq<Worker>, w: Worker)
    ensures Workers(ws + [w]) == AddCrew(Workers(ws), RoleOf(w))
  {
    assert (ws + [w])[..|ws|] == ws;
  }

  lemma JoinDesk(cs: seq<Caller>, c: Caller)
    ensures Callers(cs + [c]) == AddDesk(Callers(cs), DeskOf(c))
  {
    assert (cs + [c])[..|cs|] == cs;
  }

  // ---- The inductive invariant ----

  /** The mutex is held by at most one thread, and by one exactly when it is locked. */
  ghost predicate LockInv(v: Vars, ws: Crew, cs: Desk, x: Closer)
  {
    ws.lock + cs.lock + LockX(x) == if v.locked then 1 else 0
  }

  ghost predicate CounterInv(thrMax: nat, v: Vars, ws: Crew, cs: Desk)
  {
    && 0 <= v.alive
    && v.alive + cs.counting == ws.alive
    && v.alive + cs.growing <= thrMax
    && v.idle == ws.idle
  }

  /** Every queued job is matched by a token that exists, will be posted, is held, or was
      never posted; the posts of destroy are never mistaken for those of a job. */
  ghost predicate TokenInv(v: Vars, log: Log, ws: Crew, cs: Desk)
  {
    && |v.queue| + log.closePosts == v.sig + ws.early + ws.late + cs.pending + log.orphans + log.dropped
    && (v.valid ==> log.closePosts == 0 && log.dropped == 0)
    && v.sig + ws.early + log.dropped >= log.closePosts
  }

  /** Signals for destroy that exist: posted, about to be posted, or already taken. */
  ghost function Signals(v: Vars, log: Log, ws: Crew): int
  {
    v.done + ws.signal + log.consumed
  }

  ghost predicate ShutdownInv(v: Vars, log: Log, ws: Crew, cs: Desk, x: Closer)
  {
    && (v.valid <==> x.NotCalled? || x.Checked?)
    && Signals(v, log, ws) <= 1
    && (Signals(v, log, ws) == 1 ==> !v.valid && v.alive == 0 && cs.inside == 0 && ws.busy == 0)
    && (!v.valid && !x.AtLock? ==> cs.inside == 0)
    && log.consumed == (if x == Freed(true) then 1 else 0)
    && match x
       case Waking(left) => v.alive > 0 && v.sig + left >= ws.mayWait
       case Releasing(wait) =>
         if wait then v.alive > 0 && v.sig >= ws.mayWait else v.alive == 0 && ws.lock == 0
       case AwaitLast =>
         v.sig >= ws.mayWait && (v.alive == 0 ==> Signals(v, log, ws) + ws.testing == 1)
       case Freed(waited) => !waited ==> v.alive == 0 && ws.lock == 0
       case _ => true
  }

  ghost predicate InvFor(thrMax: nat, v: Vars, log: Log, ws: Crew, cs: Desk, x: Closer)
  {
    && LockInv(v, ws, cs, x)
    && CounterInv(thrMax, v, ws, cs)
    && TokenInv(v, log, ws, cs)
    && ShutdownInv(v, log, ws, cs, x)
    && log.added == log.popped + v.queue
  }

  ghost predicate Inv(s: Pool)
  {
    InvFor(s.thrMax, s.vars, s.log, Workers(s.workers), Callers(s.callers), s.closer)
  }

  // ---- Every step keeps the invariant ----

  lemma WorkerKeepsCounters(thrMax: nat, v: Vars, log: Log, w: Worker, fail: bool, rest: Crew, cs: Desk, x: Closer)
    requires CrewOk(rest) && DeskOk(cs) && WorkerEnabled(v, w, fail)
    requires LockInv(v, AddCrew(rest, RoleOf(w)), cs, x) && CounterInv(thrMax, v, AddCrew(rest, RoleOf(w)), cs)
    ensures var m := WorkerMove(v, log, w, fail);
            var ws := AddCrew(rest, RoleOf(m.pc));
            LockInv(m.vars, ws, cs, x) && CounterInv(thrMax, m.vars, ws, cs)
  {
  }

  lemma WorkerKeepsTokens(v: Vars, log: Log, w: Worker, fail: bool, rest: Crew, cs: Desk)
    requires CrewOk(rest) && DeskOk(cs) && WorkerEnabled(v, w, fail)
    requires TokenInv(v, log, AddCrew(rest, RoleOf(w)), cs) && log.added == log.popped + v.queue
    ensures var m := WorkerMove(v, log, w, fail);
            var ws := AddCrew(rest, RoleOf(m.pc));
            TokenInv(m.vars, m.log, ws, cs) && m.log.added == m.log.popped + m.vars.queue
  {
  }

  lemma WorkerKeepsShutdown(thrMax: nat, v: Vars, log: Log, w: Worker, fail: bool, rest: Crew, cs: Desk, x: Closer)
    requires CrewOk(rest) && DeskOk(cs) && WorkerEnabled(v, w, fail) && !x.Freed?
    requires LockInv(v, AddCrew(rest, RoleOf(w)), cs, x) && CounterInv(thrMax, v, AddCrew(rest, RoleOf(w)), cs)
    requires ShutdownInv(v, log, AddCrew(rest, RoleOf(w)), cs, x)
    ensures var m := WorkerMove(v, log, w, fail);
            ShutdownInv(m.vars, m.log, AddCrew(rest, RoleOf(m.pc)), cs, x)
  {
  }

  lemma CallerKeepsInv(thrMax: nat, v: Vars, log: Log, c: Caller, fail: bool, ws: Crew, rest: Desk, x: Closer)
    requires CrewOk(ws) && DeskOk(rest) && CallerEnabled(v, c) && !x.Freed?
    requires InvFor(thrMax, v, log, ws, AddDesk(rest, DeskOf(c)), x)
    ensures var m := CallerMove(thrMax, v, log, c, fail);
            var ws' := if Spawns(c, fail) then AddCrew(ws, RoleOf(AtLoop)) else ws;
            InvFor(thrMax, m.vars, m.log, ws', AddDesk(rest, DeskOf(m.pc)), x)
  {
  }

  lemma CloserKeepsInv(thrMax: nat, v: Vars, log: Log, ws: Crew, cs: Desk, x: Closer)
    requires CrewOk(ws) && DeskOk(cs) && CloserEnabled(v, x)
    requires InvFor(thrMax, v, log, ws, cs, x)
    ensures var m := CloserMove(v, log, x); InvFor(thrMax, m.vars, m.log, ws, cs, m.pc)
  {
  }

  lemma StepKeepsInv(s: Pool, a: Action)
    requires Inv(s) && Enabled(s, a)
    ensures Inv(Step(s, a))
  {
    CrewIsOk(s.workers);
    DeskIsOk(s.callers);
    match a
    case Call(job) =>
      JoinDesk(s.callers, Called(job));
    case Work(i, fail) =>
      var m := WorkerMove(s.vars, s.log, s.workers[i], fail);
      var rest := MoveCrew(s.workers, i, m.pc);
      WorkerKeepsCounters(s.thrMax, s.vars, s.log, s.workers[i], fail, rest, Callers(s.callers), s.closer);
      WorkerKeepsTokens(s.vars, s.log, s.workers[i], fail, rest, Callers(s.callers));
      WorkerKeepsShutdown(s.thrMax, s.vars, s.log, s.workers[i], fail, rest, Callers(s.callers), s.closer);
    case Dispatch(i, fail) =>
      var m := CallerMove(s.thrMax, s.vars, s.log, s.callers[i], fail);
      var rest := MoveDesk(s.callers, i, m.pc);
      JoinCrew(s.workers, AtLoop);
      CallerKeepsInv(s.thrMax, s.vars, s.log, s.callers[i], fail, Workers(s.workers), rest, s.closer);
    case Destroy =>
      CloserKeepsInv(s.thrMax, s.vars, s.log, Workers(s.workers), Callers(s.callers), s.closer);
  }

  lemma {:induction false} RunKeepsInv(s: Pool, run: seq<Action>)
    requires Inv(s) && Runs(s, run)
    ensures Inv(After(s, run))
    decreases |run|
  {
    if run != [] {
      StepKeepsInv(s, run[0]);
      RunKeepsInv(Step(s, run[0]), run[1..]);
    }
  }

  /** The pool after a run of any length and any interleaving from `thrmgr_new`. */
  ghost predicate Reachable(s: Pool)
  {
    exists thrMax: nat, run :: Runs(New(thrMax), run) && s == After(New(thrMax), run)
  }

  lemma ReachableInv(s: Pool)
    requires Reachable(s)
    ensures Inv(s) && CrewOk(Workers(s.workers)) && DeskOk(Callers(s.callers))
  {
    var thrMax: nat, run :| Runs(New(thrMax), run) && s == After(New(thrMax), run);
    RunKeepsInv(New(thrMax), run);
    CrewIsOk(s.workers);
    DeskIsOk(s.callers);
  }

  // ---- Jobs, tokens and counters ----

  /** While the pool is valid, queued jobs and tokens are in exact balance. */
  lemma TokensMatchJobs(s: Pool)
    requires Reachable(s)
    ensures s.vars.valid ==>
              var held := Workers(s.workers).early + Workers(s.workers).late;
              |s.vars.queue| == s.vars.sig + Callers(s.callers).pending + held + s.log.orphans
  {
    ReachableInv(s);
  }

  /** A worker that goes to pop holds a token, and always finds a job; also while closing. */
  lemma PopFindsJob(s: Pool, i: nat)
    requires Reachable(s) && i < |s.workers| && (s.workers[i] == AtPopLock || s.workers[i] == Popping)
    ensures s.vars.queue != []
  {
    ReachableInv(s);
    var rest := MoveCrew(s.workers, i, s.workers[i]);
  }

  /** Jobs leave in the order they came: what was popped, then what is queued, is what was added. */
  lemma JobsInOrder(s: Pool)
    requires Reachable(s)
    ensures s.log.added == s.log.popped + s.vars.queue
  {
    ReachableInv(s);
  }

  /** thr_idle counts the idle workers and thr_alive the live ones, up to the one thread
      that a dispatcher has created and not counted yet. */
  lemma CountersBounded(s: Pool)
    requires Reachable(s)
    ensures 0 <= s.vars.idle == Workers(s.workers).idle
    ensures 0 <= s.vars.alive <= s.thrMax
    ensures s.vars.alive <= Workers(s.workers).alive <= s.vars.alive + 1
    ensures (forall c <- s.callers :: !c.Counting?) ==>
              s.vars.idle <= s.vars.alive == Workers(s.workers).alive
  {
    ReachableInv(s);
    if Callers(s.callers).counting > 0 {
      var i := SomeCaller(s.callers, (d: Desk) => d.counting);
      assert s.callers[i] in s.callers;
    }
  }

  /** At most one thread holds the mutex. */
  lemma MutualExclusion(s: Pool)
    requires Reachable(s)
    ensures Workers(s.workers).lock + Callers(s.callers).lock + LockX(s.closer) <= 1
  {
    ReachableInv(s);
  }

  // ---- Finding a thread in a role ----

  ghost predicate CrewField(f: Crew -> int)
  {
    && f(Workers([])) == 0
    && (forall a, b :: f(AddCrew(a, b)) == f(a) + f(b))
  }

  lemma {:induction false} SomeWorker(ws: seq<Worker>, f: Crew -> int) returns (i: nat)
    requires CrewField(f) && f(Workers(ws)) > 0
    ensures i < |ws| && f(RoleOf(ws[i])) > 0
  {
    var n := |ws| - 1;
    if f(RoleOf(ws[n])) > 0 {
      i := n;
    } else {
      i := SomeWorker(ws[..n], f);
    }
  }

  ghost predicate DeskField(f: Desk -> int)
  {
    && f(Callers([])) == 0
    && (forall a, b :: f(AddDesk(a, b)) == f(a) + f(b))
  }

  lemma {:induction false} SomeCaller(cs: seq<Caller>, f: Desk -> int) returns (i: nat)
    requires DeskField(f) && f(Callers(cs)) > 0
    ensures i < |cs| && f(DeskOf(cs[i])) > 0
  {
    var n := |cs| - 1;
    if f(DeskOf(cs[n])) > 0 {
      i := n;
    } else {
      i := SomeCaller(cs[..n], f);
    }
  }

  // ---- Shutdown ----

  /** Once destroy has made its posts, every waiting worker has a token to take. */
  lemma NoWorkerStaysBlocked(s: Pool, i: nat)
    requires Reachable(s) && (s.closer == Releasing(true) || s.closer == AwaitLast)
    requires i < |s.workers| && s.workers[i] == AtWait
    ensures Enabled(s, Work(i, false))
  {
    ReachableInv(s);
    var rest := MoveCrew(s.workers, i, s.workers[i]);
  }

  /** pool_sem is posted at most once in any run.  When destroy has waited, it was posted
      exactly once, no thread is alive, and no worker touches the freed pool any more. */
  lemma SignalledOnce(s: Pool)
    requires Reachable(s)
    ensures s.vars.done + s.log.consumed <= 1
    ensures s.closer == Freed(true) ==>
              && s.vars.done == 0 && s.log.consumed == 1 && s.vars.alive == 0
              && forall w <- s.workers :: w == ExitPost(false) || w == Gone
    ensures s.closer == Freed(false) ==>
              s.vars.alive == 0 && forall w <- s.workers :: w.ExitPost? || w == Gone
  {
    ReachableInv(s);
    if s.closer.Freed? {
      forall w | w in s.workers
        ensures w.ExitPost? || w == Gone
        ensures s.closer.waited ==> w != ExitPost(true)
      {
        var i :| 0 <= i < |s.workers| && s.workers[i] == w;
        var rest := MoveCrew(s.workers, i, w);
      }
    }
  }

  /** From the moment destroy reads thr_alive, no step makes it grow. */
  lemma {:induction false} NoThreadAfterRead(s: Pool, run: seq<Action>)
    requires Inv(s) && Runs(s, run)
    requires !s.vars.valid && !s.closer.AtLock?
    ensures After(s, run).vars.alive <= s.vars.alive
    decreases |run|
  {
    if run != [] {
      var a := run[0];
      StepKeepsInv(s, a);
      if a.Dispatch? {
        var rest := MoveDesk(s.callers, a.c, s.callers[a.c]);
      }
      NoThreadAfterRead(Step(s, a), run[1..]);
    }
  }

  function Effort(s: Pool): int
  {
    Workers(s.workers).effort + Callers(s.callers).effort + CloserEffort(s.thrMax, s.closer)
  }

  lemma WorkerUsesEffort(v: Vars, log: Log, w: Worker, fail: bool)
    requires !v.valid && WorkerEnabled(v, w, fail)
    ensures var m := WorkerMove(v, log, w, fail);
            !m.vars.valid && WorkerEffort(m.pc) < WorkerEffort(w)
  {
  }

  lemma CallerUsesEffort(thrMax: nat, v: Vars, log: Log, c: Caller, fail: bool)
    requires !v.valid && CallerEnabled(v, c)
    ensures var m := CallerMove(thrMax, v, log, c, fail);
            var spawned := if Spawns(c, fail) then WorkerEffort(AtLoop) else 0;
            !m.vars.valid && CallerEffort(m.pc) + spawned < CallerEffort(c)
  {
  }

  /** Every step of a closing pool, new calls aside, uses up effort. */
  lemma ClosingStep(s: Pool, a: Action)
    requires Inv(s) && !s.vars.valid && Enabled(s, a) && !a.Call?
    ensures Effort(Step(s, a)) < Effort(s)
    ensures !Step(s, a).vars.valid
  {
    match a
    case Work(i, fail) =>
      WorkerUsesEffort(s.vars, s.log, s.workers[i], fail);
      var rest := MoveCrew(s.workers, i, WorkerMove(s.vars, s.log, s.workers[i], fail).pc);
    case Dispatch(i, fail) =>
      CallerUsesEffort(s.thrMax, s.vars, s.log, s.callers[i], fail);
      var rest := MoveDesk(s.callers, i, CallerMove(s.thrMax, s.vars, s.log, s.callers[i], fail).pc);
      JoinCrew(s.workers, AtLoop);
    case Destroy =>
      DeskIsOk(s.callers);
  }

  /** A closing pool that is not freed always has a thread that can move. */
  lemma NeverStuck(s: Pool) returns (a: Action)
    requires Inv(s) && !s.vars.valid && !s.closer.Freed?
    ensures Enabled(s, a) && !a.Call?
  {
    CrewIsOk(s.workers);
    DeskIsOk(s.callers);
    var ws, cs := Workers(s.workers), Callers(s.callers);
    if CloserEnabled(s.vars, s.closer) {
      a := Destroy;
    } else if ws.lock > 0 {
      var i := SomeWorker(s.workers, (c: Crew) => c.lock);
      a := Work(i, false);
    } else if cs.lock > 0 {
      var i := SomeCaller(s.callers, (d: Desk) => d.lock);
      a := Dispatch(i, false);
    } else if s.vars.alive > 0 {
      var i := SomeWorker(s.workers, (c: Crew) => c.alive);
      var rest := MoveCrew(s.workers, i, s.workers[i]);
      a := Work(i, false);
    } else {
      var i := SomeWorker(s.workers, (c: Crew) => c.signal);
      a := Work(i, false);
    }
  }

  /** How many dispatch calls begin in a run. */
  function Calls(run: seq<Action>): nat
  {
    if run == [] then 0 else Calls(run[1..]) + if run[0].Call? then 1 else 0
  }

  /** Whatever the schedule, a closing pool takes at most `Effort` steps, and 17 more for each
      call that still begins (it is refused); it can only come to rest with the pool freed:
      destroy returns. */
  lemma {:induction false} DestroyTerminates(s: Pool, run: seq<Action>)
    requires Inv(s) && !s.vars.valid && Runs(s, run)
    ensures |run| <= Effort(s) + 17 * Calls(run)
    ensures var t := After(s, run);
            (forall a :: Enabled(t, a) ==> a.Call?) ==> t.closer.Freed?
    decreases |run|
  {
    if run == [] {
      CrewIsOk(s.workers);
      DeskIsOk(s.callers);
      if !s.closer.Freed? {
        var a := NeverStuck(s);
      }
    } else {
      var a := run[0];
      if a.Call? {
        JoinDesk(s.callers, Called(a.job));
      } else {
        ClosingStep(s, a);
      }
      StepKeepsInv(s, a);
      DestroyTerminates(Step(s, a), run[1..]);
    }
  }

  lemma {:induction false} RunThenStep(s: Pool, run: seq<Action>, a: Action)
    requires Runs(s, run) && Enabled(After(s, run), a)
    ensures Runs(s, run + [a]) && After(s, run + [a]) == Step(After(s, run), a)
    decreases |run|
  {
    if run == [] {
      assert [a][1..] == [];
    } else {
      RunThenStep(Step(s, run[0]), run[1..], a);
      assert (run + [a])[1..] == run[1..] + [a];
    }
  }

  lemma Next(s: Pool, a: Action) returns (t: Pool)
    requires Reachable(s) && Enabled(s, a)
    ensures Reachable(t) && t == Step(s, a)
  {
    var thrMax: nat, run :| Runs(New(thrMax), run) && s == After(New(thrMax), run);
    RunThenStep(New(thrMax), run, a);
    t := Step(s, a);
  }
}
