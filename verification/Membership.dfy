/**
 Server and nodes together, as a timed transition system.

 Time passes between any two steps.  Calls are lossy: a request may be lost, may be served
 late, even after its caller gave up, and a caller may see a failure although its request was
 served.  The sweep reads the clock before it takes the lock.  A picked node is called
 without the lock and may be evicted later.
 */
module Membership {
  import opened ByteStrings
  import opened DcServer

  /** Where a node is in its loop. */
  datatype Pc =
    | Top             // about to test m_bregister_ok
    | Registering     // inside RegisterClient
    | Middle          // about to test m_bregister_ok again
    | Beating         // inside HeartBeatWork
    | Asleep          // in swartz_sem_wait

  /** `call` numbers the calls of this node, so that no reply is taken for another. */
  datatype Client = Client(registered: bool, pc: Pc, call: nat)

  datatype Request = Request(key: Key, call: nat, register: bool)

  /** What happened to the table, oldest first. */
  datatype Event =
    | Registered(key: Key, time: int)
    | Beat(key: Key, time: int)
    | Swept(key: Key, time: int)      // `time` is the check time
    | Evicted(key: Key)

  datatype Cluster = Cluster(
    now: int,
    nodes: seq<Entry>,
    pickNum: nat,
    called: multiset<Key>,           // picked, and the call has not returned
    checkTime: Option<int>,          // read by the sweep that is about to take the lock
    lastSweep: Option<int>,          // check time of the last sweep that ran
    clients: map<Key, Client>,
    net: set<Request>,
    replies: map<(Key, nat), bool>,
    log: seq<Event>)

  datatype Action =
    | Tick(ms: nat)
    | ReadClock
    | RunSweep
    | PickNode
    | CallDone(key: Key, ok: bool)
    | Serve(request: Request)
    | Lose(request: Request)
    | Proceed(key: Key)              // a node takes its next step by itself
    | Return(key: Key)               // a call of the node returns what the server replied
    | Fail(key: Key)                 // a call of the node fails

  // ---- Steps ----

  function SweptEvents(nodes: seq<Entry>, checkTime: int): seq<Event>
  {
    if nodes == [] then []
    else (if Stale(nodes[0], checkTime) then [Swept(nodes[0].key, checkTime)] else []) + SweptEvents(nodes[1..], checkTime)
  }

  function ServeRequest(c: Cluster, r: Request): Cluster
  {
    var known := Has(c.nodes, r.key);
    c.(net := c.net - {r},
       nodes := if r.register then Register(c.nodes, r.key, c.now) else HeartBeat(c.nodes, r.key, c.now),
       replies := c.replies[(r.key, r.call) := r.register || known],
       log := c.log + if r.register then [Registered(r.key, c.now)] else if known then [Beat(r.key, c.now)] else [])
  }

  /** Send a request and wait for its reply. */
  function Send(c: Cluster, key: Key, register: bool): Cluster
    requires key in c.clients
  {
    var me := c.clients[key];
    var call := me.call + 1;
    c.(clients := c.clients[key := me.(pc := if register then Registering else Beating, call := call)],
       net := c.net + {Request(key, call, register)})
  }

  function SetClient(c: Cluster, key: Key, registered: bool, pc: Pc): Cluster
    requires key in c.clients
  {
    c.(clients := c.clients[key := c.clients[key].(registered := registered, pc := pc)])
  }

  /** The loop of SendHeartBeat, one test or wait at a time. */
  function ClientMove(c: Cluster, key: Key): Option<Cluster>
    requires key in c.clients
  {
    var me := c.clients[key];
    match me.pc
    case Top => Some(if me.registered then SetClient(c, key, true, Middle) else Send(c, key, true))
    case Middle => Some(if me.registered then Send(c, key, false) else SetClient(c, key, false, Asleep))
    case Asleep => Some(SetClient(c, key, me.registered, Top))
    case _ => None
  }

  /** A call returns `ok` to the node. */
  function Returned(c: Cluster, key: Key, ok: bool): Option<Cluster>
    requires key in c.clients
  {
    match c.clients[key].pc
    case Registering => Some(SetClient(c, key, ok, Middle))
    case Beating => Some(SetClient(c, key, ok, Asleep))
    case _ => None
  }

  function Step(c: Cluster, a: Action): Option<Cluster>
  {
    match a
    case Tick(ms) => Some(c.(now := c.now + ms))
    case ReadClock => if c.checkTime.Some? then None else Some(c.(checkTime := Some(c.now)))
    case RunSweep =>
      if c.checkTime.None? then None
      else Some(c.(nodes := Sweep(c.nodes, c.checkTime.value),
                   log := c.log + SweptEvents(c.nodes, c.checkTime.value),
                   checkTime := None, lastSweep := c.checkTime))
    case PickNode =>
      if c.nodes == [] then None
      else
        var i := c.pickNum % |c.nodes|;
        Some(c.(called := c.called + multiset{c.nodes[i].key}, pickNum := i + 1))
    case CallDone(key, ok) =>
      if key !in c.called then None
      else
        var d := c.(called := c.called - multiset{key});
        Some(if ok then d
             else d.(nodes := Evict(c.nodes, key), log := c.log + if Has(c.nodes, key) then [Evicted(key)] else []))
    case Serve(r) => if r in c.net then Some(ServeRequest(c, r)) else None
    case Lose(r) => if r in c.net then Some(c.(net := c.net - {r})) else None
    case Proceed(key) => if key in c.clients then ClientMove(c, key) else None
    case Return(key) =>
      if key in c.clients && (key, c.clients[key].call) in c.replies
      then Returned(c, key, c.replies[(key, c.clients[key].call)])
      else None
    case Fail(key) => if key in c.clients then Returned(c, key, false) else None
  }

  /** The server has just started, and no node has called it yet. */
  predicate Init(c: Cluster)
  {
    && c.nodes == [] && c.pickNum == 0 && c.called == multiset{} && c.checkTime == None && c.lastSweep == None
    && c.net == {} && c.replies == map[] && c.log == []
    && forall k <- c.clients :: c.clients[k] == Client(false, Top, 0)
  }

  function After(c: Cluster, actions: seq<Action>): Option<Cluster>
    decreases |actions|
  {
    if actions == [] then Some(c)
    else
      match Step(c, actions[0])
      case None => None
      case Some(next) => After(next, actions[1..])
  }

  // ---- The history of one key ----

  /** The last register or removal of the key is a register. */
  function Present(log: seq<Event>, key: Key): bool
  {
    if log == [] then false
    else
      match log[|log| - 1]
      case Registered(k, _) => k == key || Present(log[..|log| - 1], key)
      case Swept(k, _) => k != key && Present(log[..|log| - 1], key)
      case Evicted(k) => k != key && Present(log[..|log| - 1], key)
      case Beat(_, _) => Present(log[..|log| - 1], key)
  }

  predicate Accepts(e: Event, key: Key) { (e.Registered? || e.Beat?) && e.key == key }

  /** The time of the last accepted register or heartbeat. */
  function LastAccepted(log: seq<Event>, key: Key): Option<int>
  {
    if log == [] then None
    else if Accepts(log[|log| - 1], key) then Some(log[|log| - 1].time)
    else LastAccepted(log[..|log| - 1], key)
  }

  // ---- The invariant ----

  /** Every sweep of a key found its last accepted time too old. */
  predicate SweepsJustified(log: seq<Event>)
  {
    forall i, e | 0 <= i < |log| && e == log[i] && e.Swept? ::
      var t := LastAccepted(log[..i], e.key);
      t.Some? && e.time - t.value > TIMEOUT
  }

  /** No accepted time is before an earlier check time, and none is in the future. */
  predicate TimesInOrder(log: seq<Event>, now: int)
  {
    && (forall i | 0 <= i < |log| && !log[i].Evicted? :: log[i].time <= now)
    && (forall i, j | 0 <= i < j < |log| && !log[i].Evicted? && (log[j].Registered? || log[j].Beat?) ::
          log[i].time <= log[j].time)
  }

  /** The table is what the log says it is. */
  ghost predicate TableMatchesLog(c: Cluster)
  {
    && (forall key :: Has(c.nodes, key) <==> Present(c.log, key))
    && (forall e <- c.nodes :: LastAccepted(c.log, e.key) == Some(e.heartBeatTime))
  }

  predicate ClockOrder(c: Cluster)
  {
    && (c.checkTime.Some? ==> c.checkTime.value <= c.now)
    && (c.lastSweep.Some? ==> c.lastSweep.value <= c.now)
    && (c.checkTime.Some? && c.lastSweep.Some? ==> c.lastSweep.value <= c.checkTime.value)
  }

  /** No entry is older than the last sweep allowed. */
  predicate Bounded(c: Cluster)
  {
    && (forall e <- c.nodes :: e.heartBeatTime <= c.now)
    && (c.lastSweep.Some? ==> forall e <- c.nodes :: e.heartBeatTime >= c.lastSweep.value - TIMEOUT)
  }

  ghost predicate Inv(c: Cluster)
  {
    Unique(c.nodes) && TableMatchesLog(c) && SweepsJustified(c.log) && TimesInOrder(c.log, c.now) && ClockOrder(c) && Bounded(c)
  }

  // ---- Every step keeps it ----

  lemma LogStep(log: seq<Event>, e: Event, key: Key)
    ensures LastAccepted(log + [e], key) == if Accepts(e, key) then Some(e.time) else LastAccepted(log, key)
    ensures Present(log + [e], key)
            == if e.key != key || e.Beat? then Present(log, key) else e.Registered?
  {
    assert (log + [e])[..|log|] == log;
  }

  /** What one more event asks for. */
  predicate Fits(log: seq<Event>, e: Event, now: int)
  {
    && (e.Swept? ==> var t := LastAccepted(log, e.key); t.Some? && e.time - t.value > TIMEOUT)
    && (e.Registered? || e.Beat? ==> e.time == now)
    && (!e.Evicted? ==> e.time <= now)
  }

  lemma LogKeeps(log: seq<Event>, e: Event, now: int)
    requires SweepsJustified(log) && TimesInOrder(log, now) && Fits(log, e, now)
    ensures SweepsJustified(log + [e]) && TimesInOrder(log + [e], now)
  {
    var longer := log + [e];
    forall i | 0 <= i < |longer|
      ensures longer[..i] == log[..i] && (i < |log| ==> longer[i] == log[i])
    {
    }
    assert log[..|log|] == log;
  }

  /** The sweep finds a stale entry of this key. */
  predicate SweepsKey(nodes: seq<Entry>, key: Key, checkTime: int)
  {
    exists e <- nodes :: e.key == key && Stale(e, checkTime)
  }

  lemma SweepsKeyStep(nodes: seq<Entry>, key: Key, checkTime: int)
    requires nodes != []
    ensures SweepsKey(nodes, key, checkTime)
            <==> (nodes[0].key == key && Stale(nodes[0], checkTime)) || SweepsKey(nodes[1..], key, checkTime)
  {
    assert forall e <- nodes :: e == nodes[0] || e in nodes[1..];
  }

  /** For one key, sweeping appends a removal if its entry is stale, and nothing else. */
  lemma {:induction false} SweptLogKey(log: seq<Event>, nodes: seq<Entry>, checkTime: int, key: Key)
    ensures var longer := log + SweptEvents(nodes, checkTime);
            && LastAccepted(longer, key) == LastAccepted(log, key)
            && (Present(longer, key) <==> Present(log, key) && !SweepsKey(nodes, key, checkTime))
    decreases |nodes|
  {
    hide LastAccepted, Present, SweepsKey;
    if nodes == [] {
      assert log + [] == log;
      NothingSwept(key, checkTime);
    } else {
      var first, rest := nodes[0], SweptEvents(nodes[1..], checkTime);
      SweepsKeyStep(nodes, key, checkTime);
      if Stale(first, checkTime) {
        var e := Swept(first.key, checkTime);
        LogStep(log, e, key);
        SweptLogKey(log + [e], nodes[1..], checkTime, key);
        assert log + [e] + rest == log + SweptEvents(nodes, checkTime);
      } else {
        SweptLogKey(log, nodes[1..], checkTime, key);
        assert [] + rest == rest;
      }
    }
  }

  lemma NothingSwept(key: Key, checkTime: int)
    ensures !SweepsKey([], key, checkTime)
  {
  }

  /** Every removal that a sweep appends is justified. */
  lemma {:induction false} SweptLog(log: seq<Event>, nodes: seq<Entry>, checkTime: int, now: int)
    requires SweepsJustified(log) && TimesInOrder(log, now) && checkTime <= now
    requires forall i :: 0 <= i < |nodes| ==> LastAccepted(log, nodes[i].key) == Some(nodes[i].heartBeatTime)
    ensures var longer := log + SweptEvents(nodes, checkTime); SweepsJustified(longer) && TimesInOrder(longer, now)
    decreases |nodes|
  {
    hide SweepsJustified, TimesInOrder, LastAccepted, Present;
    if nodes == [] {
      assert log + [] == log;
    } else {
      var head := if Stale(nodes[0], checkTime) then [Swept(nodes[0].key, checkTime)] else [];
      Associates(log, head, SweptEvents(nodes[1..], checkTime));
      if Stale(nodes[0], checkTime) {
        LogKeeps(log, Swept(nodes[0].key, checkTime), now);
      } else {
        assert log + head == log;
      }
      forall i | 0 <= i < |nodes[1..]|
        ensures LastAccepted(log + head, nodes[1..][i].key) == Some(nodes[1..][i].heartBeatTime)
      {
        assert nodes[1..][i] == nodes[i + 1];
        if Stale(nodes[0], checkTime) {
          LogStep(log, Swept(nodes[0].key, checkTime), nodes[i + 1].key);
        }
      }
      SweptLog(log + head, nodes[1..], checkTime, now);
    }
  }

  lemma RunSweepKeeps(c: Cluster)
    requires Inv(c) && c.checkTime.Some?
    ensures Inv(Step(c, RunSweep).value)
  {
    hide SweepsJustified, TimesInOrder, LastAccepted, Present;
    var d, t := Step(c, RunSweep).value, c.checkTime.value;
    SweepEffect(c.nodes, t);
    SweptLog(c.log, c.nodes, t, c.now);
    forall key
      ensures Has(d.nodes, key) <==> Present(d.log, key)
      ensures LastAccepted(d.log, key) == LastAccepted(c.log, key)
    {
      SweptLogKey(c.log, c.nodes, t, key);
      SweptTable(c.nodes, t, key);
    }
  }

  lemma SweptTable(nodes: seq<Entry>, checkTime: int, key: Key)
    requires Unique(nodes)
    ensures Has(Sweep(nodes, checkTime), key) <==> Has(nodes, key) && !SweepsKey(nodes, key, checkTime)
  {
    SweepEffect(nodes, checkTime);
    forall a, b | a in nodes && b in nodes && a.key == b.key
      ensures a == b
    {
      OneEntry(nodes, a, b);
    }
  }

  lemma ServeKeeps(c: Cluster, r: Request)
    requires Inv(c)
    ensures Inv(ServeRequest(c, r))
  {
    hide SweepsJustified, TimesInOrder;
    var d := ServeRequest(c, r);
    if r.register {
      RegisterEffect(c.nodes, r.key, c.now);
      TouchKeeps(c, d, Registered(r.key, c.now));
    } else {
      HeartBeatEffect(c.nodes, r.key, c.now);
      if Has(c.nodes, r.key) {
        TouchKeeps(c, d, Beat(r.key, c.now));
      } else {
        assert forall e <- c.nodes :: e.key != r.key;
        assert d.log == c.log && d.nodes == c.nodes;
      }
    }
  }

  lemma TouchKeeps(c: Cluster, d: Cluster, event: Event)
    requires Inv(c) && Accepts(event, event.key) && event.time == c.now && (event.Beat? ==> Has(c.nodes, event.key))
    requires d == c.(nodes := d.nodes, log := c.log + [event], net := d.net, replies := d.replies)
    requires Unique(d.nodes) && Has(d.nodes, event.key)
    requires forall e: Entry :: e.key != event.key ==> (e in d.nodes <==> e in c.nodes)
    requires forall e <- d.nodes :: e.key == event.key ==> e.heartBeatTime == c.now
    ensures Inv(d)
  {
    hide SweepsJustified, TimesInOrder;
    LogKeeps(c.log, event, c.now);
    forall key
      ensures Has(d.nodes, key) <==> Present(d.log, key)
      ensures LastAccepted(d.log, key) == if key == event.key then Some(c.now) else LastAccepted(c.log, key)
    {
      LogStep(c.log, event, key);
      SameKeys(c.nodes, d.nodes, event.key, key);
    }
  }

  lemma SameKeys(a: seq<Entry>, b: seq<Entry>, touched: Key, key: Key)
    requires forall e: Entry :: e.key != touched ==> (e in a <==> e in b)
    ensures key != touched ==> (Has(a, key) <==> Has(b, key))
  {
  }

  lemma EvictKeeps(c: Cluster, key: Key)
    requires Inv(c) && key in c.called
    ensures Inv(Step(c, CallDone(key, false)).value)
  {
    hide SweepsJustified, TimesInOrder, LastAccepted, Present, Has, Evict;
    var d := Step(c, CallDone(key, false)).value;
    EvictEffect(c.nodes, key);
    EvictTable(c.nodes, key, key);
    if Has(c.nodes, key) {
      LogKeeps(c.log, Evicted(key), c.now);
      forall k
        ensures Has(d.nodes, k) <==> Present(d.log, k)
        ensures LastAccepted(d.log, k) == LastAccepted(c.log, k)
      {
        LogStep(c.log, Evicted(key), k);
        EvictTable(c.nodes, key, k);
      }
    } else {
      assert c.log + [] == c.log;
      Unaffected(c, d);
    }
  }

  lemma EvictTable(nodes: seq<Entry>, key: Key, k: Key)
    requires Unique(nodes)
    ensures Has(Evict(nodes, key), k) <==> Has(nodes, k) && k != key
    ensures !Has(nodes, key) ==> Evict(nodes, key) == nodes
  {
    EvictEffect(nodes, key);
    var at := Find(nodes, key, 0);
    if at.Some? {
      assert nodes[at.value] in nodes;
    }
  }

  lemma TickKeeps(c: Cluster, ms: nat)
    requires Inv(c)
    ensures Inv(Step(c, Tick(ms)).value)
  {
  }

  /** The invariant does not speak of the nodes' own state, of requests or of picks. */
  lemma Unaffected(c: Cluster, d: Cluster)
    requires Inv(c) && d.now == c.now && d.nodes == c.nodes && d.log == c.log && d.lastSweep == c.lastSweep
    requires d.checkTime == c.checkTime || d.checkTime == Some(c.now)
    ensures Inv(d)
  {
  }

  lemma StepKeepsInv(c: Cluster, a: Action)
    requires Inv(c) && Step(c, a).Some?
    ensures Inv(Step(c, a).value)
  {
    hide Inv;
    match a
    case Tick(ms) => TickKeeps(c, ms);
    case RunSweep => RunSweepKeeps(c);
    case CallDone(key, ok) =>
      if ok {
        Unaffected(c, Step(c, a).value);
      } else {
        EvictKeeps(c, key);
      }
    case Serve(r) => ServeKeeps(c, r);
    case _ => Unaffected(c, Step(c, a).value);
  }

  lemma InitInv(c: Cluster)
    requires Init(c)
    ensures Inv(c)
  {
  }

  lemma {:induction false} RunKeepsInv(c: Cluster, actions: seq<Action>)
    requires Inv(c) && After(c, actions).Some?
    ensures Inv(After(c, actions).value)
    decreases |actions|
  {
    hide Inv, Step;
    if actions != [] {
      StepKeepsInv(c, actions[0]);
      RunKeepsInv(Step(c, actions[0]).value, actions[1..]);
    }
  }

  // ---- The table in every reachable state ----

  /** Keys are unique; a key is present exactly if it registered after its last removal; each
      entry carries its last accepted time; and no entry is older than the last sweep's check
      time less the timeout, which bounds the age of a dead node's entry. */
  lemma TableOverRuns(c: Cluster, actions: seq<Action>)
    requires Init(c) && After(c, actions).Some?
    ensures var d := After(c, actions).value;
            && Unique(d.nodes)
            && (forall key :: Has(d.nodes, key) <==> Present(d.log, key))
            && (forall e <- d.nodes :: LastAccepted(d.log, e.key) == Some(e.heartBeatTime))
            && (d.lastSweep.Some? ==>
                  forall e <- d.nodes ::
                    && e.heartBeatTime >= d.lastSweep.value - TIMEOUT
                    && d.now - e.heartBeatTime <= d.now - d.lastSweep.value + TIMEOUT)
  {
    InitInv(c);
    RunKeepsInv(c, actions);
  }

  // ---- Steady nodes ----

  /** Every accepted time of the key is followed by another within the timeout, or is no
      older than the timeout now. */
  predicate Steady(log: seq<Event>, key: Key, now: int)
  {
    forall i | 0 <= i < |log| && Accepts(log[i], key) ::
      || now <= log[i].time + TIMEOUT
      || exists j | i < j < |log| :: Accepts(log[j], key) && log[j].time <= log[i].time + TIMEOUT
  }

  lemma {:induction false} LastAcceptedAt(log: seq<Event>, key: Key) returns (p: nat)
    requires LastAccepted(log, key).Some?
    ensures p < |log| && Accepts(log[p], key) && log[p].time == LastAccepted(log, key).value
    ensures forall q :: p < q < |log| ==> !Accepts(log[q], key)
    decreases |log|
  {
    var n := |log| - 1;
    if Accepts(log[n], key) {
      p := n;
    } else {
      p := LastAcceptedAt(log[..n], key);
    }
  }

  /** A sweep that removes a key proves a gap in its accepted times. */
  lemma SweptHadGap(log: seq<Event>, now: int, i: nat)
    requires SweepsJustified(log) && TimesInOrder(log, now) && i < |log| && log[i].Swept?
    ensures !Steady(log, log[i].key, now)
  {
    var key, t := log[i].key, log[i].time;
    var e := log[i];
    assert LastAccepted(log[..i], e.key).Some?;
    var p := LastAcceptedAt(log[..i], key);
    var h := log[p].time;
    assert log[..i][p] == log[p] && t - h > TIMEOUT && t <= now;
    forall j | p < j < |log| && Accepts(log[j], key)
      ensures log[j].time > h + TIMEOUT
    {
      assert j > i;
    }
  }

  lemma {:induction false} StaysPresent(log: seq<Event>, key: Key, i: nat)
    requires i < |log| && log[i].Registered? && log[i].key == key
    requires forall j | i < j < |log| :: log[j].key == key ==> !log[j].Swept? && !log[j].Evicted?
    ensures Present(log, key)
    decreases |log|
  {
    if i < |log| - 1 {
      StaysPresent(log[..|log| - 1], key, i);
    }
  }

  /** A node whose accepted times are never more than 60000 ms apart is never removed by any
      sweep; once registered and not evicted since, it is in the table. */
  lemma SteadyNodeStays(c: Cluster, actions: seq<Action>, key: Key)
    requires Init(c) && After(c, actions).Some?
    requires Steady(After(c, actions).value.log, key, After(c, actions).value.now)
    ensures var d := After(c, actions).value;
            && (forall e <- d.log :: e.Swept? ==> e.key != key)
            && (forall i | 0 <= i < |d.log| && d.log[i].Registered? && d.log[i].key == key ::
                  (forall j | i < j < |d.log| :: d.log[j] != Evicted(key)) ==> Has(d.nodes, key))
  {
    InitInv(c);
    RunKeepsInv(c, actions);
    var d := After(c, actions).value;
    forall i | 0 <= i < |d.log| && d.log[i].Swept?
      ensures d.log[i].key != key
    {
      SweptHadGap(d.log, d.now, i);
    }
    forall i | 0 <= i < |d.log| && d.log[i].Registered? && d.log[i].key == key
               && forall j | i < j < |d.log| :: d.log[j] != Evicted(key)
      ensures Has(d.nodes, key)
    {
      StaysPresent(d.log, key, i);
    }
  }

  // ---- A removed node comes back ----

  /** Requests and replies belong to calls already made, and to the right kind of call. */
  predicate CallsInv(c: Cluster)
  {
    && (forall r <- c.net | r.key in c.clients ::
          var me := c.clients[r.key];
          && r.call <= me.call
          && (r.call == me.call ==> (me.pc == Registering ==> r.register) && (me.pc == Beating ==> !r.register)))
    && (forall id <- c.replies | id.0 in c.clients :: id.1 <= c.clients[id.0].call)
  }

  lemma StepKeepsCalls(c: Cluster, a: Action)
    requires CallsInv(c) && Step(c, a).Some?
    ensures CallsInv(Step(c, a).value)
  {
    hide CallsInv, ServeRequest, ClientMove, Returned;
    match a
    case Serve(r) => ServeKeepsCalls(c, r);
    case Proceed(key) => MoveKeepsCalls(c, key);
    case Return(key) => ReturnKeepsCalls(c, key, c.replies[(key, c.clients[key].call)]);
    case Fail(key) => ReturnKeepsCalls(c, key, false);
    case _ => SameCalls(c, Step(c, a).value);
  }

  lemma ServeKeepsCalls(c: Cluster, r: Request)
    requires CallsInv(c) && r in c.net
    ensures CallsInv(ServeRequest(c, r))
  {
    hide Register, HeartBeat, Has;
  }

  lemma ReturnKeepsCalls(c: Cluster, key: Key, ok: bool)
    requires CallsInv(c) && key in c.clients && Returned(c, key, ok).Some?
    ensures CallsInv(Returned(c, key, ok).value)
  {
  }

  lemma SameCalls(c: Cluster, d: Cluster)
    requires CallsInv(c) && d.clients == c.clients && d.replies == c.replies && d.net <= c.net
    ensures CallsInv(d)
  {
  }

  lemma MoveKeepsCalls(c: Cluster, key: Key)
    requires CallsInv(c) && key in c.clients && ClientMove(c, key).Some?
    ensures CallsInv(ClientMove(c, key).value)
  {
  }

  lemma {:induction false} RunKeepsCalls(c: Cluster, actions: seq<Action>)
    requires CallsInv(c) && After(c, actions).Some?
    ensures CallsInv(After(c, actions).value)
    decreases |actions|
  {
    hide CallsInv, Step;
    if actions != [] {
      StepKeepsCalls(c, actions[0]);
      RunKeepsCalls(Step(c, actions[0]).value, actions[1..]);
    }
  }

  /** The key is in the table and was accepted at or after `since`. */
  predicate Fresh(c: Cluster, key: Key, since: int) { exists e <- c.nodes :: e.key == key && e.heartBeatTime >= since }

  /** The loop rounds of a node that end in this run. */
  function Rounds(c: Cluster, actions: seq<Action>, key: Key): nat
    requires After(c, actions).Some? && key in c.clients
    decreases |actions|
  {
    if actions == [] then 0
    else
      var next := Step(c, actions[0]).value;
      if key !in next.clients then 0 else RoundsIn(c, next, key) + Rounds(next, actions[1..], key)
  }

  function RoundsIn(c: Cluster, d: Cluster, key: Key): nat
    requires key in c.clients && key in d.clients
  {
    if c.clients[key].pc != Asleep && d.clients[key].pc == Asleep then 1 else 0
  }

  /** Where the node stands after `rounds` rounds, if it is not back yet. */
  predicate ComingBack(c: Cluster, key: Key, rounds: nat)
    requires key in c.clients
  {
    var me := c.clients[key];
    var id := (key, me.call);
    match me.pc
    case Registering => rounds <= 1 && id !in c.replies
    case Beating => rounds == 0 && (id in c.replies ==> !c.replies[id])
    case Middle => rounds == 0
    case Top => rounds == 0 || (rounds == 1 && !me.registered)
    case Asleep => rounds == 0 || (rounds == 1 && !me.registered)
  }

  lemma ClientStays(c: Cluster, a: Action, key: Key)
    requires Step(c, a).Some? && key in c.clients
    ensures key in Step(c, a).value.clients && c.now <= Step(c, a).value.now
  {
    hide Register, HeartBeat, Has, Sweep, Evict, SweptEvents;
  }

  lemma ComingStep(c: Cluster, a: Action, key: Key, since: int, rounds: nat)
    requires Inv(c) && CallsInv(c) && Step(c, a).Some? && key in c.clients && key in Step(c, a).value.clients
    requires a != Fail(key) && since <= c.now && ComingBack(c, key, rounds)
    ensures var d := Step(c, a).value; Fresh(d, key, since) || ComingBack(d, key, rounds + RoundsIn(c, d, key))
  {
    hide Inv, CallsInv, Fresh, ComingBack, ServeRequest, ClientMove;
    match a
    case Serve(r) =>
      ServeBack(c, r, key, since, rounds);
      ServeClients(c, r);
    case Proceed(k) => MoveBack(c, k, key, rounds);
    case Return(k) => ReturnBack(c, k, key, rounds);
    case Fail(k) => FailBack(c, k, key, rounds);
    case _ => StillComing(c, Step(c, a).value, key, rounds);
  }

  lemma ServeClients(c: Cluster, r: Request)
    ensures ServeRequest(c, r).clients == c.clients && ServeRequest(c, r).now == c.now
  {
  }

  lemma StillComing(c: Cluster, d: Cluster, key: Key, rounds: nat)
    requires key in c.clients && ComingBack(c, key, rounds) && d.clients == c.clients && d.replies == c.replies
    ensures ComingBack(d, key, rounds)
  {
  }

  lemma MoveBack(c: Cluster, k: Key, key: Key, rounds: nat)
    requires CallsInv(c) && k in c.clients && key in c.clients && ClientMove(c, k).Some? && ComingBack(c, key, rounds)
    ensures var d := ClientMove(c, k).value; key in d.clients && ComingBack(d, key, rounds + RoundsIn(c, d, key))
  {
  }

  lemma ReturnBack(c: Cluster, k: Key, key: Key, rounds: nat)
    requires key in c.clients && Step(c, Return(k)).Some? && ComingBack(c, key, rounds)
    ensures var d := Step(c, Return(k)).value; key in d.clients && ComingBack(d, key, rounds + RoundsIn(c, d, key))
  {
  }

  lemma FailBack(c: Cluster, k: Key, key: Key, rounds: nat)
    requires key in c.clients && k != key && Step(c, Fail(k)).Some? && ComingBack(c, key, rounds)
    ensures var d := Step(c, Fail(k)).value; key in d.clients && ComingBack(d, key, rounds + RoundsIn(c, d, key))
  {
  }

  lemma FreshStays(c: Cluster, a: Action, key: Key, since: int)
    requires Inv(c) && Step(c, a).Some? && Fresh(c, key, since) && since <= c.now
    requires a != CallDone(key, false) && Step(c, a).value.now <= since + TIMEOUT
    ensures Fresh(Step(c, a).value, key, since)
  {
    var e :| e in c.nodes && e.key == key && e.heartBeatTime >= since;
    match a
    case RunSweep =>
      SweepEffect(c.nodes, c.checkTime.value);
      assert e in Step(c, a).value.nodes;
    case CallDone(k, ok) =>
      EvictEffect(c.nodes, k);
      assert e in Step(c, a).value.nodes;
    case Serve(r) =>
      RegisterEffect(c.nodes, r.key, c.now);
      HeartBeatEffect(c.nodes, r.key, c.now);
    case _ =>
  }

  lemma ServeBack(c: Cluster, r: Request, key: Key, since: int, rounds: nat)
    requires Inv(c) && CallsInv(c) && r in c.net && key in c.clients && since <= c.now
    requires ComingBack(c, key, rounds)
    ensures var d := ServeRequest(c, r); Fresh(d, key, since) || ComingBack(d, key, rounds)
  {
    var d := ServeRequest(c, r);
    if r.key == key {
      RegisterEffect(c.nodes, key, c.now);
      HeartBeatEffect(c.nodes, key, c.now);
      if r.register {
        assert Entry(key, c.now) in d.nodes;
      } else if Has(c.nodes, key) {
        assert Has(d.nodes, key);
      }
    }
  }

  /** On the way back the node is in the table at some point, or still short of it. */
  lemma {:induction false} BackPrefix(c: Cluster, actions: seq<Action>, key: Key, since: int, rounds: nat) returns (k: nat)
    requires Inv(c) && CallsInv(c) && key in c.clients && since <= c.now && After(c, actions).Some?
    requires Fail(key) !in actions && ComingBack(c, key, rounds)
    ensures k <= |actions| && After(c, actions[..k]).Some? && key in After(c, actions).value.clients
    ensures || Fresh(After(c, actions[..k]).value, key, since)
            || ComingBack(After(c, actions).value, key, rounds + Rounds(c, actions, key))
    decreases |actions|
  {
    hide Inv, CallsInv, Step, Fresh, ComingBack, RoundsIn;
    k := 0;
    assert actions[..0] == [];
    if actions != [] {
      var a, rest := actions[0], actions[1..];
      var next := Step(c, a).value;
      ClientStays(c, a, key);
      ClientsStay(next, rest, key);
      StepKeepsInv(c, a);
      StepKeepsCalls(c, a);
      ComingStep(c, a, key, since, rounds);
      assert actions[..1] == [a] && [a][1..] == [];
      if Fresh(next, key, since) {
        assert After(next, []) == Some(next);
        k := 1;
      } else {
        var j := BackPrefix(next, rest, key, since, rounds + RoundsIn(c, next, key));
        k := j + 1;
        assert actions[..k][1..] == rest[..j];
      }
    }
  }

  lemma {:induction false} ClientsStay(c: Cluster, actions: seq<Action>, key: Key)
    requires After(c, actions).Some? && key in c.clients
    ensures key in After(c, actions).value.clients
    decreases |actions|
  {
    hide Step;
    if actions != [] {
      ClientStays(c, actions[0], key);
      ClientsStay(Step(c, actions[0]).value, actions[1..], key);
    }
  }

  /** A node that is in the table stays there for 60000 ms, unless it is evicted. */
  lemma {:induction false} FreshRun(c: Cluster, actions: seq<Action>, key: Key, since: int)
    requires Inv(c) && since <= c.now && Fresh(c, key, since) && After(c, actions).Some?
    requires CallDone(key, false) !in actions && After(c, actions).value.now <= since + TIMEOUT
    ensures Fresh(After(c, actions).value, key, since)
    decreases |actions|
  {
    hide Inv, Step, Fresh;
    if actions != [] {
      var next := Step(c, actions[0]).value;
      TimeStep(c, actions[0]);
      TimeGoesOn(next, actions[1..]);
      StepKeepsInv(c, actions[0]);
      FreshStays(c, actions[0], key, since);
      FreshRun(next, actions[1..], key, since);
    }
  }

  /** Where a run first puts the node to sleep. */
  lemma {:induction false} FirstSleep(c: Cluster, actions: seq<Action>, key: Key) returns (k: nat)
    requires After(c, actions).Some? && key in c.clients && Rounds(c, actions, key) > 0
    ensures k <= |actions| && After(c, actions[..k]).Some?
    ensures var d := After(c, actions[..k]).value;
            && key in d.clients && d.clients[key].pc == Asleep
            && After(d, actions[k..]) == After(c, actions)
            && Rounds(d, actions[k..], key) >= Rounds(c, actions, key) - 1
    decreases |actions|
  {
    hide Step;
    var a, rest := actions[0], actions[1..];
    var next := Step(c, a).value;
    ClientStays(c, a, key);
    if RoundsIn(c, next, key) == 1 {
      k := 1;
      assert actions[..1] == [a] && [a][1..] == [] && After(next, []) == Some(next);
    } else {
      var j := FirstSleep(next, rest, key);
      k := j + 1;
      assert actions[..k][1..] == rest[..j] && actions[k..] == rest[j..];
    }
  }

  lemma {:induction false} TimeGoesOn(c: Cluster, actions: seq<Action>)
    requires After(c, actions).Some?
    ensures c.now <= After(c, actions).value.now
    decreases |actions|
  {
    hide Step;
    if actions != [] {
      var next := Step(c, actions[0]).value;
      TimeStep(c, actions[0]);
      TimeGoesOn(next, actions[1..]);
    }
  }

  lemma TimeStep(c: Cluster, a: Action)
    requires Step(c, a).Some?
    ensures c.now <= Step(c, a).value.now
  {
    hide Register, HeartBeat, Has, Sweep, Evict, SweptEvents;
  }

  lemma InitCalls(c: Cluster)
    requires Init(c)
    ensures CallsInv(c)
  {
  }

  /** The rounds that bring a node back: two from the top of its loop or from its wait, and
      from elsewhere one more, for the round that it is in. */
  function RoundsNeeded(me: Client): nat { if me.pc == Top || me.pc == Asleep then 2 else 3 }

  /** From any reachable state, whatever happened before, and however long it takes: in a run
      in which the node completes its rounds and none of its calls fails, there is a moment
      when it is in the table, accepted during this run. */
  lemma BackAtSomePoint(start: Cluster, before: seq<Action>, actions: seq<Action>, key: Key) returns (k: nat)
    requires Init(start) && After(start, before).Some? && After(After(start, before).value, actions).Some?
    requires var c := After(start, before).value;
             key in c.clients && Fail(key) !in actions && Rounds(c, actions, key) >= RoundsNeeded(c.clients[key])
    ensures var c := After(start, before).value;
            && k <= |actions| && After(c, actions[..k]).Some?
            && Fresh(After(c, actions[..k]).value, key, c.now)
  {
    hide Inv, CallsInv, Step, After, Fresh, Rounds;
    var c := After(start, before).value;
    InitInv(start);
    InitCalls(start);
    RunKeepsInv(start, before);
    RunKeepsCalls(start, before);
    if RoundsNeeded(c.clients[key]) == 2 {
      k := BackPrefix(c, actions, key, c.now, 0);
    } else {
      var j := FirstSleep(c, actions, key);
      var first, rest := actions[..j], actions[j..];
      var d := After(c, first).value;
      RunKeepsInv(c, first);
      RunKeepsCalls(c, first);
      TimeGoesOn(c, first);
      var i := BackPrefix(d, rest, key, c.now, 0);
      k := j + i;
      assert actions[..k] == first + rest[..i];
      AfterAppend(c, first, rest[..i]);
    }
  }

  /** If such a run lasts at most 60000 ms and the node is not evicted in it, the node is in the
      table at its end. */
  lemma BackInTwoRounds(start: Cluster, before: seq<Action>, actions: seq<Action>, key: Key)
    requires Init(start) && After(start, before).Some? && After(After(start, before).value, actions).Some?
    requires var c := After(start, before).value;
             && key in c.clients && Fail(key) !in actions && Rounds(c, actions, key) >= RoundsNeeded(c.clients[key])
             && CallDone(key, false) !in actions && After(c, actions).value.now <= c.now + TIMEOUT
    ensures var c := After(start, before).value; Fresh(After(c, actions).value, key, c.now)
  {
    hide Inv, CallsInv, Step, After, Fresh, Rounds;
    var c := After(start, before).value;
    var k := BackAtSomePoint(start, before, actions, key);
    InitInv(start);
    RunKeepsInv(start, before);
    RunKeepsInv(c, actions[..k]);
    TimeGoesOn(c, actions[..k]);
    assert actions == actions[..k] + actions[k..];
    AfterAppend(c, actions[..k], actions[k..]);
    FreshRun(After(c, actions[..k]).value, actions[k..], key, c.now);
  }

  // ---- The node's own loop ----

  /** What one round does, for given outcomes of the two calls. */
  datatype RoundDone = RoundDone(sentRegister: bool, sentHeartBeat: bool, registered: bool)

  function RoundOf(registered: bool, registerOk: bool, heartBeatOk: bool): RoundDone
  {
    var beats := registered || registerOk;
    RoundDone(!registered, beats, beats && heartBeatOk)
  }

  /** The body of SendHeartBeat up to its wait, with the outcome of both calls given. */
  class NodeServer {
    var registered: bool

    constructor ()
      ensures !registered
    {
      registered := false;
    }

    method Round(registerOk: bool, heartBeatOk: bool) returns (sentRegister: bool, sentHeartBeat: bool)
      modifies this
      ensures RoundDone(sentRegister, sentHeartBeat, registered) == RoundOf(old(registered), registerOk, heartBeatOk)
    {
      sentRegister, sentHeartBeat := false, false;
      if !registered {
        sentRegister := true;
        if registerOk {
          registered := true;
        }
      }
      if registered {
        sentHeartBeat := true;
        if !heartBeatOk {
          registered := false;
        }
      }
    }
  }

  /** A call that is in progress returns. */
  function Answered(c: Cluster, key: Key, ok: bool): Cluster
    requires key in c.clients
  {
    match Returned(c, key, ok)
    case None => c
    case Some(d) => d
  }

  /** One round of the transition system: the two tests of the loop, and the returns of the
      calls that they start. */
  function LoopBody(c: Cluster, key: Key, registerOk: bool, heartBeatOk: bool): Option<Cluster>
    requires key in c.clients
  {
    match ClientMove(c, key)
    case None => None
    case Some(d) =>
      match ClientMove(Answered(d, key, registerOk), key)
      case None => None
      case Some(e) => Some(Answered(e, key, heartBeatOk))
  }

  /** The node after a test at which it calls, or does not. */
  function Moved(c: Cluster, key: Key, calls: bool, register: bool, registered: bool, pc: Pc): Cluster
    requires key in c.clients
  {
    var call := c.clients[key].call + if calls then 1 else 0;
    c.(clients := c.clients[key := Client(registered, pc, call)],
       net := c.net + if calls then {Request(key, call, register)} else {})
  }

  lemma HalfRound(c: Cluster, key: Key, ok: bool)
    requires key in c.clients && (c.clients[key].pc == Top || c.clients[key].pc == Middle)
    ensures var me := c.clients[key];
            var top := me.pc == Top;
            && ClientMove(c, key).Some? && key in ClientMove(c, key).value.clients
            && Answered(ClientMove(c, key).value, key, ok)
               == Moved(c, key, me.registered != top, top, if me.registered != top then ok else top,
                        if top then Middle else Asleep)
  {
    assert c.net + {} == c.net;
  }

  /** The transition system takes the round of NodeServer.Round, for the same outcomes: the
      flag, the calls that were made, and nothing else. */
  lemma RoundIsLoop(c: Cluster, key: Key, registerOk: bool, heartBeatOk: bool)
    requires key in c.clients && c.clients[key].pc == Top
    ensures var done := RoundOf(c.clients[key].registered, registerOk, heartBeatOk);
            var d := Moved(c, key, done.sentRegister, true, done.sentRegister ==> registerOk, Middle);
            LoopBody(c, key, registerOk, heartBeatOk)
            == Some(Moved(d, key, done.sentHeartBeat, false, done.registered, Asleep))
  {
    hide ClientMove, Answered;
    HalfRound(c, key, registerOk);
    HalfRound(Answered(ClientMove(c, key).value, key, registerOk), key, heartBeatOk);
  }

  lemma {:induction false} AfterAppend(c: Cluster, a: seq<Action>, b: seq<Action>)
    ensures After(c, a + b) == match After(c, a)
                               case None => None
                               case Some(d) => After(d, b)
    decreases |a|
  {
    hide Step;
    if a == [] {
      assert a + b == b;
    } else {
      assert (a + b)[1..] == a[1..] + b;
      var next := Step(c, a[0]);
      if next.Some? {
        AfterAppend(next.value, a[1..], b);
      }
    }
  }

  /** A call that works: it is sent, served and answered. */
  function Called(c: Cluster, key: Key, register: bool): (d: Cluster)
    requires key in c.clients
  {
    var call := c.clients[key].call + 1;
    var served := ServeRequest(Send(c, key, register), Request(key, call, register));
    SetClient(served, key, served.replies[(key, call)], if register then Middle else Asleep)
  }

  function CallActions(c: Cluster, key: Key, register: bool): seq<Action>
    requires key in c.clients
  {
    [Proceed(key), Serve(Request(key, c.clients[key].call + 1, register)), Return(key)]
  }

  lemma CallRuns(c: Cluster, key: Key, register: bool)
    requires key in c.clients && c.clients[key].registered == !register
    requires c.clients[key].pc == if register then Top else Middle
    ensures After(c, CallActions(c, key, register)) == Some(Called(c, key, register))
  {
    hide Register, HeartBeat, Has;
    var actions := CallActions(c, key, register);
    var sent := Send(c, key, register);
    var request := Request(key, c.clients[key].call + 1, register);
    var served := ServeRequest(sent, request);
    assert Step(c, actions[0]) == Some(sent) && Step(sent, actions[1]) == Some(served);
    assert Step(served, actions[2]) == Some(Called(c, key, register));
    ThreeSteps(c, actions, sent, served, Called(c, key, register));
  }

  lemma ThreeSteps(c: Cluster, a: seq<Action>, c1: Cluster, c2: Cluster, c3: Cluster)
    requires |a| == 3 && Step(c, a[0]) == Some(c1) && Step(c1, a[1]) == Some(c2) && Step(c2, a[2]) == Some(c3)
    ensures After(c, a) == Some(c3)
  {
    hide Step;
    assert After(c3, []) == Some(c3);
    assert a[1..][1..] == [a[2]] && [a[2]][1..] == [];
    assert After(c2, [a[2]]) == Some(c3);
    assert After(c1, a[1..]) == After(c2, [a[2]]);
  }

  /** An undisturbed round with working calls: what the node then believes is true, and it is
      in the table unless it believed so wrongly before. */
  lemma WorkingRound(c: Cluster, key: Key) returns (actions: seq<Action>)
    requires key in c.clients && c.clients[key].pc == Top && Unique(c.nodes)
    ensures After(c, actions).Some?
    ensures var d := After(c, actions).value;
            && key in d.clients && d.clients[key].pc == Asleep
            && (d.clients[key].registered <==> Has(d.nodes, key))
            && (Has(d.nodes, key) <==> !c.clients[key].registered || Has(c.nodes, key))
  {
    hide Register, HeartBeat, Has, Step, After, CallActions;
    var first: seq<Action>, middle: Cluster;
    if c.clients[key].registered {
      first, middle := [Proceed(key)], SetClient(c, key, true, Middle);
      OneStep(c, key);
    } else {
      first, middle := CallActions(c, key, true), Called(c, key, true);
      CallRuns(c, key, true);
      RegisterEffect(c.nodes, key, c.now);
      HasEntry(Register(c.nodes, key, c.now), Entry(key, c.now));
    }
    CallRuns(middle, key, false);
    HeartBeatEffect(middle.nodes, key, middle.now);
    actions := first + CallActions(middle, key, false);
    AfterAppend(c, first, CallActions(middle, key, false));
  }

  lemma OneStep(c: Cluster, key: Key)
    requires key in c.clients && c.clients[key].pc == Top && c.clients[key].registered
    ensures After(c, [Proceed(key)]) == Some(SetClient(c, key, true, Middle))
  {
    assert [Proceed(key)][1..] == [];
  }

  lemma HasEntry(nodes: seq<Entry>, e: Entry)
    requires e in nodes
    ensures Has(nodes, e.key)
  {
  }
}
