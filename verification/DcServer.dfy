/**
 The node table of the server: registration, heartbeats, the sweep, eviction and the
 round-robin pick.  Each method runs under the mutex; the clock is a parameter.
 */
module DcServer {
  import opened ByteStrings

  datatype Key = Key(ip: string, port: int)

  datatype Entry = Entry(key: Key, heartBeatTime: int)

  const TIMEOUT := 60 * 1000

  // ---- The table as a value ----

  function Keys(nodes: seq<Entry>): seq<Key> { seq(|nodes|, i requires 0 <= i < |nodes| => nodes[i].key) }

  predicate Unique(nodes: seq<Entry>)
  {
    forall i, j :: 0 <= i < j < |nodes| ==> nodes[i].key != nodes[j].key
  }

  /** Entry `e` stands in the table. */
  predicate Has(nodes: seq<Entry>, key: Key) { exists e <- nodes :: e.key == key }

  /** The first place of a key, from `i` on. */
  function Find(nodes: seq<Entry>, key: Key, i: nat): (r: Option<nat>)
    requires i <= |nodes|
    ensures r.Some? ==> r.value < |nodes| && nodes[r.value].key == key
    ensures r.None? ==> forall j :: i <= j < |nodes| ==> nodes[j].key != key
    decreases |nodes| - i
  {
    if i == |nodes| then None else if nodes[i].key == key then Some(i) else Find(nodes, key, i + 1)
  }

  function Register(nodes: seq<Entry>, key: Key, now: int): seq<Entry>
  {
    match Find(nodes, key, 0)
    case None => nodes + [Entry(key, now)]
    case Some(i) => nodes[i := Entry(key, now)]
  }

  /** A heartbeat never inserts. */
  function HeartBeat(nodes: seq<Entry>, key: Key, now: int): seq<Entry>
  {
    match Find(nodes, key, 0)
    case None => nodes
    case Some(i) => nodes[i := Entry(key, now)]
  }

  predicate Stale(e: Entry, checkTime: int) { checkTime - e.heartBeatTime > TIMEOUT }

  function Sweep(nodes: seq<Entry>, checkTime: int): seq<Entry>
  {
    if nodes == [] then []
    else if Stale(nodes[0], checkTime) then Sweep(nodes[1..], checkTime)
    else [nodes[0]] + Sweep(nodes[1..], checkTime)
  }

  function Evict(nodes: seq<Entry>, key: Key): seq<Entry>
  {
    match Find(nodes, key, 0)
    case None => nodes
    case Some(i) => nodes[..i] + nodes[i + 1..]
  }

  // ---- What the operations keep and change ----

  /** Where keys are unique, an entry is known by its key. */
  lemma OneEntry(nodes: seq<Entry>, a: Entry, b: Entry)
    requires Unique(nodes) && a in nodes && b in nodes && a.key == b.key
    ensures a == b
  {
  }

  lemma RegisterEffect(nodes: seq<Entry>, key: Key, now: int)
    requires Unique(nodes)
    ensures var r := Register(nodes, key, now);
            && Unique(r) && Entry(key, now) in r
            && (forall e: Entry :: e.key != key ==> (e in r <==> e in nodes))
            && (forall e <- r :: e.key == key ==> e.heartBeatTime == now)
  {
    var r := Register(nodes, key, now);
    match Find(nodes, key, 0)
    case None =>
      assert r[|nodes|] == Entry(key, now);
      forall e | e in nodes
        ensures e in r
      {
        var i :| 0 <= i < |nodes| && nodes[i] == e;
        assert r[i] == e;
      }
    case Some(i) => ReplaceEffect(nodes, i, now);
  }

  lemma ReplaceEffect(nodes: seq<Entry>, i: nat, now: int)
    requires Unique(nodes) && i < |nodes|
    ensures var key := nodes[i].key;
            var r := nodes[i := Entry(key, now)];
            && Unique(r) && Entry(key, now) in r && Keys(r) == Keys(nodes)
            && (forall e: Entry :: e.key != key ==> (e in r <==> e in nodes))
            && (forall e <- r :: e.key == key ==> e.heartBeatTime == now)
  {
    var r := nodes[i := Entry(nodes[i].key, now)];
    assert r[i] == Entry(nodes[i].key, now);
    forall e | e in nodes && e.key != nodes[i].key
      ensures e in r
    {
      var j :| 0 <= j < |nodes| && nodes[j] == e;
      assert r[j] == e;
    }
  }

  lemma HeartBeatEffect(nodes: seq<Entry>, key: Key, now: int)
    requires Unique(nodes)
    ensures var r := HeartBeat(nodes, key, now);
            && Unique(r) && Keys(r) == Keys(nodes)
            && (Has(r, key) <==> Has(nodes, key))
            && (forall e: Entry :: e.key != key ==> (e in r <==> e in nodes))
            && (forall e <- r :: e.key == key ==> e.heartBeatTime == now)
  {
    match Find(nodes, key, 0)
    case None =>
    case Some(i) =>
      ReplaceEffect(nodes, i, now);
      assert Has(nodes, key) by { assert nodes[i] in nodes; }
  }

  lemma {:induction false} SweepEffect(nodes: seq<Entry>, checkTime: int)
    requires Unique(nodes)
    ensures Unique(Sweep(nodes, checkTime))
    ensures forall e :: e in Sweep(nodes, checkTime) <==> e in nodes && !Stale(e, checkTime)
    decreases |nodes|
  {
    if nodes != [] {
      SweepEffect(nodes[1..], checkTime);
      assert nodes == [nodes[0]] + nodes[1..];
      forall e | e in nodes[1..]
        ensures e.key != nodes[0].key
      {
        var i :| 0 <= i < |nodes[1..]| && nodes[1..][i] == e;
        assert nodes[i + 1] == e;
      }
      var rest := Sweep(nodes[1..], checkTime);
      forall j | 0 <= j < |rest|
        ensures rest[j].key != nodes[0].key
      {
        assert rest[j] in rest;
      }
    }
  }

  lemma EvictEffect(nodes: seq<Entry>, key: Key)
    requires Unique(nodes)
    ensures Unique(Evict(nodes, key))
    ensures forall e :: e in Evict(nodes, key) <==> e in nodes && e.key != key
  {
    match Find(nodes, key, 0)
    case None =>
      assert forall e <- nodes :: e.key != key;
    case Some(i) =>
      var r := nodes[..i] + nodes[i + 1..];
      assert nodes == nodes[..i] + [nodes[i]] + nodes[i + 1..];
      forall e | e in r
        ensures e.key != key
      {
        var j :| 0 <= j < |r| && r[j] == e;
        assert e == nodes[if j < i then j else j + 1];
      }
      forall j, k | 0 <= j < k < |r|
        ensures r[j].key != r[k].key
      {
        assert r[j] == nodes[if j < i then j else j + 1] && r[k] == nodes[if k < i then k else k + 1];
      }
  }

  // ---- The object ----

  class Server {
    var nodes: seq<Entry>
    var pickNum: nat

    constructor ()
      ensures nodes == [] && pickNum == 0
    {
      nodes, pickNum := [], 0;
    }

    method RegisterWork(key: Key, now: int)
      modifies this`nodes
      ensures nodes == Register(old(nodes), key, now)
      ensures Unique(old(nodes)) ==> Unique(nodes)
    {
      if Unique(nodes) {
        RegisterEffect(nodes, key, now);
      }
      var i := 0;
      while i < |nodes|
        invariant 0 <= i <= |nodes| && nodes == old(nodes)
        invariant Find(nodes, key, i) == Find(nodes, key, 0)
      {
        if nodes[i].key == key {
          nodes := nodes[i := nodes[i].(heartBeatTime := now)];
          return;
        }
        i := i + 1;
      }
      nodes := nodes + [Entry(key, now)];
    }

    method HeartBeatWork(key: Key, now: int) returns (ok: bool)
      modifies this`nodes
      ensures nodes == HeartBeat(old(nodes), key, now) && (ok <==> Has(old(nodes), key))
      ensures Unique(old(nodes)) ==> Unique(nodes)
    {
      if Unique(nodes) {
        HeartBeatEffect(nodes, key, now);
      }
      var i := 0;
      while i < |nodes|
        invariant 0 <= i <= |nodes| && nodes == old(nodes)
        invariant Find(nodes, key, i) == Find(nodes, key, 0)
      {
        if nodes[i].key == key {
          nodes := nodes[i := nodes[i].(heartBeatTime := now)];
          return true;
        }
        i := i + 1;
      }
      return false;
    }

    /** The loop of StartService: erase while iterating. */
    method SweepNodes(checkTime: int)
      modifies this`nodes
      ensures nodes == Sweep(old(nodes), checkTime)
      ensures Unique(old(nodes)) ==> Unique(nodes)
    {
      if Unique(nodes) {
        SweepEffect(nodes, checkTime);
      }
      var i := 0;
      while i < |nodes|
        invariant 0 <= i <= |nodes|
        invariant nodes[..i] + Sweep(nodes[i..], checkTime) == Sweep(old(nodes), checkTime)
        decreases |nodes| - i
      {
        SweepOne(nodes, i, checkTime);
        if Stale(nodes[i], checkTime) {
          nodes := nodes[..i] + nodes[i + 1..];
        } else {
          i := i + 1;
        }
      }
      assert nodes[..i] == nodes && nodes[i..] == [];
    }

    /** The index is in range whatever happened to the table since the last pick. */
    method Pick() returns (node: Option<Entry>)
      modifies this`pickNum
      ensures nodes == [] ==> node == None && pickNum == old(pickNum)
      ensures nodes != [] ==> node == Some(nodes[old(pickNum) % |nodes|]) && pickNum == PickNum(old(pickNum), |nodes|, 1)
    {
      if |nodes| == 0 {
        return None;
      }
      pickNum := pickNum % |nodes|;
      node := Some(nodes[pickNum]);
      pickNum := pickNum + 1;
    }

    /** After a failed call to a node. */
    method EvictNode(key: Key)
      modifies this`nodes
      ensures nodes == Evict(old(nodes), key)
      ensures Unique(old(nodes)) ==> Unique(nodes)
    {
      if Unique(nodes) {
        EvictEffect(nodes, key);
      }
      var i := 0;
      while i < |nodes|
        invariant 0 <= i <= |nodes| && nodes == old(nodes)
        invariant Find(nodes, key, i) == Find(nodes, key, 0)
      {
        if nodes[i].key == key {
          nodes := nodes[..i] + nodes[i + 1..];
          return;
        }
        i := i + 1;
      }
    }
  }

  /** One round of the sweep. */
  lemma SweepOne(nodes: seq<Entry>, i: nat, checkTime: int)
    requires i < |nodes|
    ensures var left := nodes[..i] + nodes[i + 1..];
            nodes[..i] + Sweep(nodes[i..], checkTime)
            == if Stale(nodes[i], checkTime) then left[..i] + Sweep(left[i..], checkTime)
               else nodes[..i + 1] + Sweep(nodes[i + 1..], checkTime)
  {
    var left := nodes[..i] + nodes[i + 1..];
    assert nodes[i..][1..] == nodes[i + 1..];
    assert left[..i] == nodes[..i] && left[i..] == nodes[i + 1..];
    assert nodes[..i + 1] == nodes[..i] + [nodes[i]];
    Associates(nodes[..i], [nodes[i]], Sweep(nodes[i + 1..], checkTime));
  }

  // ---- Round robin ----

  /** `pickNum` after `k` picks from a table of `n` nodes. */
  function PickNum(start: nat, n: nat, k: nat): nat
    requires n > 0
  {
    if k == 0 then start else PickNum(start, n, k - 1) % n + 1
  }

  /** How often index `x` is chosen in the first `k` picks. */
  function Chosen(start: nat, n: nat, k: nat, x: nat): nat
    requires n > 0
  {
    if k == 0 then 0 else Chosen(start, n, k - 1, x) + if PickNum(start, n, k - 1) % n == x then 1 else 0
  }

  lemma {:induction false} PickAt(start: nat, n: nat, k: nat)
    requires n > 0
    ensures PickNum(start, n, k) % n == (start + k) % n
    decreases k
  {
    if k > 0 {
      PickAt(start, n, k - 1);
      NextMod(start + k - 1, n);
    }
  }

  lemma NextMod(a: nat, n: nat)
    requires n > 0
    ensures (a % n + 1) % n == (a + 1) % n
    ensures (a + 1) % n == if a % n + 1 == n then 0 else a % n + 1
    ensures (a + 1) / n == if a % n + 1 == n then a / n + 1 else a / n
  {
    var q, r := a / n, a % n;
    Decompose(a, n);
    if r + 1 == n {
      Distribute(q, 1, n);
      Quotient(a + 1, q + 1, 0, n);
      Quotient(r + 1, 1, 0, n);
    } else {
      Quotient(a + 1, q, r + 1, n);
      Quotient(r + 1, 0, r + 1, n);
    }
  }

  lemma Quotient(a: nat, q: nat, r: nat, n: nat)
    requires n > 0 && r < n && a == q * n + r
    ensures a / n == q && a % n == r
  {
    Decompose(a, n);
    if a / n > q {
      Above(q, a / n, n);
    } else if a / n < q {
      Above(a / n, q, n);
    }
  }

  lemma Decompose(a: nat, n: nat)
    requires n > 0
    ensures a == a / n * n + a % n && 0 <= a % n < n
  {
  }

  lemma {:induction false} Above(p: nat, q: nat, n: nat)
    requires p < q
    ensures p * n + n <= q * n
    decreases q - p
  {
    assert q * n == (q - 1) * n + n;
    if p + 1 < q {
      Above(p, q - 1, n);
    }
  }

  /** The place of index `x` in the first round that starts at `start`. */
  function Offset(start: nat, n: nat, x: nat): nat
    requires x < n
  {
    if x >= start % n then x - start % n else x + n - start % n
  }

  /** Over any `k` picks from an unchanged table of `n` nodes, from any `pickNum`, each node is
      chosen floor(k/n) times, or once more if its turn comes within the last k mod n picks. */
  lemma {:induction false} Fair(start: nat, n: nat, k: nat, x: nat)
    requires x < n
    ensures Chosen(start, n, k, x) == k / n + if Offset(start, n, x) < k % n then 1 else 0
    decreases k
  {
    if k == 0 {
      Quotient(0, 0, 0, n);
    } else {
      Fair(start, n, k - 1, x);
      PickAt(start, n, k - 1);
      NextMod(k - 1, n);
      TurnOf(start, n, k - 1, x);
    }
  }

  /** Index `x` is picked exactly when its turn has come. */
  lemma TurnOf(start: nat, n: nat, k: nat, x: nat)
    requires x < n
    ensures (start + k) % n == x <==> k % n == Offset(start, n, x)
  {
    var s, r := start % n, k % n;
    var q := start / n + k / n;
    Decompose(start, n);
    Decompose(k, n);
    Distribute(start / n, k / n, n);
    if s + r < n {
      Quotient(start + k, q, s + r, n);
    } else {
      Distribute(q, 1, n);
      Quotient(start + k, q + 1, s + r - n, n);
    }
  }

  lemma Distribute(a: nat, b: nat, n: nat)
    ensures (a + b) * n == a * n + b * n
  {
  }
}
