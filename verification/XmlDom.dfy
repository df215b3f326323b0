/**
 The XML document object model: nodes with intrusive sibling links, and the list of nodes
 that are linked nowhere.  Nodes are records in a heap, known by their address.
 */
module XmlDom {
  import opened ByteStrings

  type Address = nat

  type Link = Option<Address>

  datatype Node = Node(parent: Link, first: Link, last: Link, prev: Link, next: Link)

  const NEW_NODE := Node(None, None, None, None, None)

  type Heap = map<Address, Node>

  /** A document: its own node is `root`. */
  datatype Dom = Dom(heap: Heap, root: Address, unlinked: seq<Address>)

  // ---- Child lists ----

  predicate Distinct(ks: seq<Address>) { forall i, j :: 0 <= i < j < |ks| ==> ks[i] != ks[j] }

  function At(ks: seq<Address>, i: int): Link { if 0 <= i < |ks| then Some(ks[i]) else None }

  predicate LinkOk(h: Heap, p: Address, ks: seq<Address>, i: nat)
    requires i < |ks|
  {
    && ks[i] in h && h[ks[i]].parent == Some(p)
    && h[ks[i]].prev == At(ks, i - 1) && h[ks[i]].next == At(ks, i + 1)
  }

  /** The children of `p` are `ks`, in this order, forwards and backwards. */
  predicate ListOk(h: Heap, p: Address, ks: seq<Address>)
  {
    && p in h && Distinct(ks) && h[p].first == At(ks, 0) && h[p].last == At(ks, |ks| - 1)
    && forall i :: 0 <= i < |ks| ==> LinkOk(h, p, ks, i)
  }

  /** What a list reads of its owner, and of its members. */
  predicate SameOwner(h: Heap, h': Heap, p: Address)
  {
    p in h && p in h' && h'[p].first == h[p].first && h'[p].last == h[p].last
  }

  function Place(n: Node): (Link, Link, Link) { (n.parent, n.prev, n.next) }

  predicate SameChild(h: Heap, h': Heap, c: Address)
  {
    c in h && c in h' && Place(h'[c]) == Place(h[c])
  }

  lemma ListKept(h: Heap, h': Heap, p: Address, ks: seq<Address>)
    requires ListOk(h, p, ks) && SameOwner(h, h', p) && forall c <- ks :: SameChild(h, h', c)
    ensures ListOk(h', p, ks)
  {
    forall i | 0 <= i < |ks|
      ensures LinkOk(h', p, ks, i)
    {
      assert LinkOk(h, p, ks, i) && ks[i] in ks;
    }
  }

  // ---- Ownership ----

  /** No set of nodes is closed under parents. */
  ghost predicate Acyclic(h: Heap)
  {
    forall s: set<Address> :: s != {} && s <= h.Keys ==> exists n <- s :: h[n].parent.None? || h[n].parent.value !in s
  }

  /** Node `n` is linked under one parent, or listed in `unlinked`, or one of the `loose`
      nodes that an operation has in its hands. */
  predicate Placed(d: Dom, kids: map<Address, seq<Address>>, loose: set<Address>, n: Address)
    requires n in d.heap
  {
    match d.heap[n].parent
    case Some(p) => p in kids && n in kids[p] && n !in d.unlinked && n !in loose
    case None => d.heap[n].prev == None && d.heap[n].next == None && (n in d.unlinked <==> n !in loose)
  }

  ghost predicate Owned(d: Dom, kids: map<Address, seq<Address>>, loose: set<Address>)
  {
    && d.root in d.heap && d.heap[d.root].parent == None && d.root !in loose && loose <= d.heap.Keys
    && kids.Keys == d.heap.Keys
    && (forall p <- kids :: ListOk(d.heap, p, kids[p]))
    && (forall n <- d.heap :: n != d.root ==> Placed(d, kids, loose, n))
    && Distinct(d.unlinked) && (forall n <- d.unlinked :: n in d.heap && n != d.root)
    && Acyclic(d.heap)
  }

  // ---- The steps of the operations, on the heap ----

  function SetFirst(h: Heap, p: Address, x: Link): Heap requires p in h { h[p := h[p].(first := x)] }
  function SetLast(h: Heap, p: Address, x: Link): Heap requires p in h { h[p := h[p].(last := x)] }
  function SetPrev(h: Heap, p: Address, x: Link): Heap requires p in h { h[p := h[p].(prev := x)] }
  function SetNext(h: Heap, p: Address, x: Link): Heap requires p in h { h[p := h[p].(next := x)] }

  function Without(ks: seq<Address>, k: nat): seq<Address>
    requires k < |ks|
  {
    ks[..k] + ks[k + 1..]
  }

  /** The place of a member of a list. */
  function IndexIn(ks: seq<Address>, c: Address): (k: nat)
    requires c in ks
    ensures k < |ks| && ks[k] == c
  {
    if ks[0] == c then 0 else 1 + IndexIn(ks[1..], c)
  }

  /** Neighbours, as Unlink finds them. */
  predicate Neighbours(h: Heap, p: Address, c: Address)
  {
    && p in h && c in h && p != c
    && (h[c].prev.Some? ==> h[c].prev.value in h && h[c].prev.value != c)
    && (h[c].next.Some? ==> h[c].next.value in h && h[c].next.value != c)
  }

  /** XMLNode::Unlink. */
  function Unlinked(h: Heap, p: Address, c: Address): Heap
    requires Neighbours(h, p, c)
  {
    var h1 := if h[p].first == Some(c) then SetFirst(h, p, h[c].next) else h;
    var h2 := if h1[p].last == Some(c) then SetLast(h1, p, h1[c].prev) else h1;
    var h3 := if h2[c].prev.Some? then SetNext(h2, h2[c].prev.value, h2[c].next) else h2;
    var h4 := if h3[c].next.Some? then SetPrev(h3, h3[c].next.value, h3[c].prev) else h3;
    h4[c := h4[c].(next := None, prev := None, parent := None)]
  }

  /** What taking out the `k`-th child changes, node by node. */
  predicate Cut(h: Heap, h': Heap, p: Address, ks: seq<Address>, k: nat)
    requires p in h && k < |ks|
  {
    && h'.Keys == h.Keys && ks[k] in h
    && h'[p].first == (if k == 0 then At(ks, 1) else At(ks, 0))
    && h'[p].last == (if k == |ks| - 1 then At(ks, k - 1) else At(ks, |ks| - 1))
    && (forall n <- h :: n != p ==> SameOwner(h, h', n))
    && Place(h'[ks[k]]) == (None, None, None)
    && (k > 0 ==> ks[k - 1] in h && var n := h[ks[k - 1]]; Place(h'[ks[k - 1]]) == (n.parent, n.prev, At(ks, k + 1)))
    && (k + 1 < |ks| ==> ks[k + 1] in h && var n := h[ks[k + 1]]; Place(h'[ks[k + 1]]) == (n.parent, At(ks, k - 1), n.next))
    && (forall n <- h :: n != ks[k] && (k == 0 || n != ks[k - 1]) && (k + 1 == |ks| || n != ks[k + 1]) ==> SameChild(h, h', n))
  }

  lemma UnlinkCuts(h: Heap, p: Address, ks: seq<Address>, k: nat)
    requires ListOk(h, p, ks) && k < |ks| && p !in ks
    ensures Neighbours(h, p, ks[k]) && Cut(h, Unlinked(h, p, ks[k]), p, ks, k)
  {
    assert LinkOk(h, p, ks, k);
    if k > 0 {
      assert LinkOk(h, p, ks, k - 1);
    }
    if k + 1 < |ks| {
      assert LinkOk(h, p, ks, k + 1);
    }
  }

  lemma CutList(h: Heap, h': Heap, p: Address, ks: seq<Address>, k: nat)
    requires ListOk(h, p, ks) && k < |ks| && p !in ks && Cut(h, h', p, ks, k)
    ensures ListOk(h', p, Without(ks, k))
  {
    var rest := Without(ks, k);
    forall i | 0 <= i < |rest|
      ensures LinkOk(h', p, rest, i)
    {
      var j := if i < k then i else i + 1;
      assert rest[i] == ks[j] && LinkOk(h, p, ks, j);
      assert At(rest, i - 1) == At(ks, if i <= k then i - 1 else i) || j == k + 1;
      assert At(rest, i + 1) == At(ks, if i + 1 < k then i + 1 else i + 2);
    }
  }

  /** Unlinking leaves the child loose and every other list as it was. */
  lemma CutOwned(d: Dom, h': Heap, kids: map<Address, seq<Address>>, loose: set<Address>, p: Address, k: nat)
    requires Owned(d, kids, loose) && p in kids && k < |kids[p]| && Cut(d.heap, h', p, kids[p], k)
    ensures Owned(d.(heap := h'), kids[p := Without(kids[p], k)], loose + {kids[p][k]})
  {
    hide Acyclic, Cut, ListOk, Distinct, Placed;
    var h, ks := d.heap, kids[p];
    var c, kids' := ks[k], kids[p := Without(ks, k)];
    NotOwnChild(h, p, ks);
    MemberOk(h, p, ks, c);
    CutList(h, h', p, ks, k);
    CutKeeps(h, h', p, ks, k);
    forall q <- kids | q != p
      ensures ListOk(h', q, kids[q])
    {
      OtherList(h, p, ks, q, kids[q]);
      ListKept(h, h', q, kids[q]);
    }
    forall n <- h | n != d.root
      ensures Placed(d.(heap := h'), kids', loose + {c}, n)
    {
      CutPlaced(d, h', kids, loose, p, k, n);
    }
    AcyclicCut(h, h', c);
  }

  lemma CutPlaced(d: Dom, h': Heap, kids: map<Address, seq<Address>>, loose: set<Address>, p: Address, k: nat, n: Address)
    requires n in d.heap && p in kids && k < |kids[p]| && ListOk(d.heap, p, kids[p]) && Cut(d.heap, h', p, kids[p], k)
    requires Placed(d, kids, loose, n)
    ensures n in h' && Placed(d.(heap := h'), kids[p := Without(kids[p], k)], loose + {kids[p][k]}, n)
  {
    hide Cut, ListOk;
    CutKeeps(d.heap, h', p, kids[p], k);
    ListDistinct(d.heap, p, kids[p]);
    WithoutMembers(kids[p], k, n);
    if n in kids[p] {
      MemberOk(d.heap, p, kids[p], n);
    }
    MemberOk(d.heap, p, kids[p], kids[p][k]);
  }

  lemma ListDistinct(h: Heap, p: Address, ks: seq<Address>)
    requires ListOk(h, p, ks)
    ensures Distinct(ks) && p in h
  {
  }

  /** The parts of Cut that concern ownership. */
  lemma CutKeeps(h: Heap, h': Heap, p: Address, ks: seq<Address>, k: nat)
    requires ListOk(h, p, ks) && k < |ks| && Cut(h, h', p, ks, k)
    ensures h'.Keys == h.Keys && Place(h'[ks[k]]) == (None, None, None)
    ensures forall n <- h :: n != ks[k] ==> h'[n].parent == h[n].parent
    ensures forall n <- h :: n != p ==> SameOwner(h, h', n)
    ensures forall n <- h :: n !in ks ==> SameChild(h, h', n)
  {
  }

  lemma MemberOk(h: Heap, p: Address, ks: seq<Address>, c: Address)
    requires ListOk(h, p, ks) && c in ks
    ensures c in h && h[c].parent == Some(p)
  {
    assert LinkOk(h, p, ks, IndexIn(ks, c));
  }

  lemma NotOwnChild(h: Heap, p: Address, ks: seq<Address>)
    requires ListOk(h, p, ks) && Acyclic(h)
    ensures p !in ks
  {
    assert {p} != {} && {p} <= h.Keys;
    assert h[p].parent != Some(p);
    if p in ks {
      MemberOk(h, p, ks, p);
    }
  }

  lemma OtherList(h: Heap, p: Address, ks: seq<Address>, q: Address, other: seq<Address>)
    requires ListOk(h, p, ks) && ListOk(h, q, other) && p != q
    ensures forall c <- other :: c in h && c !in ks
  {
    forall c <- other
      ensures c in h && c !in ks
    {
      MemberOk(h, q, other, c);
      if c in ks {
        MemberOk(h, p, ks, c);
      }
    }
  }

  lemma WithoutMembers(ks: seq<Address>, k: nat, n: Address)
    requires k < |ks| && Distinct(ks)
    ensures n in Without(ks, k) <==> n in ks && n != ks[k]
  {
    if n in ks && n != ks[k] {
      var i :| 0 <= i < |ks| && ks[i] == n;
      assert Without(ks, k)[if i < k then i else i - 1] == n;
    }
    assert ks == ks[..k] + [ks[k]] + ks[k + 1..];
  }

  lemma AcyclicCut(h: Heap, h': Heap, c: Address)
    requires Acyclic(h) && h'.Keys == h.Keys && c in h && h'[c].parent == None
    requires forall n <- h :: n != c ==> h'[n].parent == h[n].parent
    ensures Acyclic(h')
  {
    forall s: set<Address> | s != {} && s <= h'.Keys
      ensures exists n <- s :: h'[n].parent.None? || h'[n].parent.value !in s
    {
      var n :| n in s && (h[n].parent.None? || h[n].parent.value !in s);
      assert h'[n].parent.None? || h'[n].parent.value !in s;
    }
  }

  // ---- Insertion ----

  function With(ks: seq<Address>, k: nat, add: Address): seq<Address>
    requires k <= |ks|
  {
    ks[..k] + [add] + ks[k..]
  }

  function SetParent(h: Heap, p: Address, x: Link): Heap requires p in h { h[p := h[p].(parent := x)] }

  /** The end of InsertEndChild, for a node that is linked nowhere. */
  function AppendedChild(h: Heap, p: Address, add: Address): Heap
    requires p in h && add in h && (h[p].last.Some? ==> h[p].last.value in h)
  {
    var linked :=
      match h[p].last
      case Some(last) => SetNext(SetLast(SetPrev(SetNext(h, last, Some(add)), add, Some(last)), p, Some(add)), add, None)
      case None => SetNext(SetPrev(SetLast(SetFirst(h, p, Some(add)), p, Some(add)), add, None), add, None);
    SetParent(linked, add, Some(p))
  }

  function PrependedChild(h: Heap, p: Address, add: Address): Heap
    requires p in h && add in h && (h[p].first.Some? ==> h[p].first.value in h)
  {
    var linked :=
      match h[p].first
      case Some(first) => SetPrev(SetFirst(SetNext(SetPrev(h, first, Some(add)), add, Some(first)), p, Some(add)), add, None)
      case None => SetNext(SetPrev(SetLast(SetFirst(h, p, Some(add)), p, Some(add)), add, None), add, None);
    SetParent(linked, add, Some(p))
  }

  /** The end of InsertAfterChild, where `after` has a next sibling. */
  function InsertedAfter(h: Heap, p: Address, after: Address, add: Address): Heap
    requires p in h && add in h && after in h && h[after].next.Some? && h[after].next.value in h
    requires after != add && h[after].next.value != add && h[after].next.value != after
  {
    var h1 := SetNext(SetPrev(h, add, Some(after)), add, h[after].next);
    var h2 := SetNext(SetPrev(h1, h1[after].next.value, Some(add)), after, Some(add));
    SetParent(h2, add, Some(p))
  }

  /** What putting `add` at place `k` changes, node by node. */
  predicate Spliced(h: Heap, h': Heap, p: Address, ks: seq<Address>, k: nat, add: Address)
    requires p in h && k <= |ks|
  {
    && h'.Keys == h.Keys && add in h
    && h'[p].first == (if k == 0 then Some(add) else At(ks, 0))
    && h'[p].last == (if k == |ks| then Some(add) else At(ks, |ks| - 1))
    && (forall n <- h :: n != p ==> SameOwner(h, h', n))
    && Place(h'[add]) == (Some(p), At(ks, k - 1), At(ks, k))
    && (k > 0 ==> ks[k - 1] in h && var n := h[ks[k - 1]]; Place(h'[ks[k - 1]]) == (n.parent, n.prev, Some(add)))
    && (k < |ks| ==> ks[k] in h && var n := h[ks[k]]; Place(h'[ks[k]]) == (n.parent, Some(add), n.next))
    && (forall n <- h :: n != add && (k == 0 || n != ks[k - 1]) && (k == |ks| || n != ks[k]) ==> SameChild(h, h', n))
  }

  /** Each insertion splices at its place. */
  lemma AppendSplices(h: Heap, p: Address, ks: seq<Address>, add: Address)
    requires ListOk(h, p, ks) && p !in ks && add in h && add !in ks && add != p
    ensures (h[p].last.Some? ==> h[p].last.value in h) && Spliced(h, AppendedChild(h, p, add), p, ks, |ks|, add)
  {
    if ks != [] {
      assert LinkOk(h, p, ks, |ks| - 1) && ks[|ks| - 1] in ks;
    }
  }

  lemma PrependSplices(h: Heap, p: Address, ks: seq<Address>, add: Address)
    requires ListOk(h, p, ks) && p !in ks && add in h && add !in ks && add != p
    ensures (h[p].first.Some? ==> h[p].first.value in h) && Spliced(h, PrependedChild(h, p, add), p, ks, 0, add)
  {
    if ks != [] {
      assert LinkOk(h, p, ks, 0) && ks[0] in ks;
    }
  }

  lemma AfterSplices(h: Heap, p: Address, ks: seq<Address>, add: Address, k: nat)
    requires ListOk(h, p, ks) && p !in ks && add in h && add !in ks && add != p && k + 1 < |ks|
    ensures ks[k] in h && h[ks[k]].next == Some(ks[k + 1]) && ks[k + 1] in h && ks[k] != ks[k + 1]
    ensures ks[k] in ks && ks[k + 1] in ks && Spliced(h, InsertedAfter(h, p, ks[k], add), p, ks, k + 1, add)
  {
    assert LinkOk(h, p, ks, k) && LinkOk(h, p, ks, k + 1) && ks[k] in ks && ks[k + 1] in ks;
  }

  lemma SplicedList(h: Heap, h': Heap, p: Address, ks: seq<Address>, k: nat, add: Address)
    requires ListOk(h, p, ks) && k <= |ks| && add !in ks && p !in ks && add != p && Spliced(h, h', p, ks, k, add)
    ensures ListOk(h', p, With(ks, k, add))
  {
    var all := With(ks, k, add);
    forall i | 0 <= i < |all|
      ensures LinkOk(h', p, all, i)
    {
      if i != k {
        var j := if i < k then i else i - 1;
        assert all[i] == ks[j] && LinkOk(h, p, ks, j);
      }
      assert At(all, i - 1) == (if i - 1 < k then At(ks, i - 1) else if i - 1 == k then Some(add) else At(ks, i - 2));
      assert At(all, i + 1) == (if i + 1 < k then At(ks, i + 1) else if i + 1 == k then Some(add) else At(ks, i));
    }
  }

  /** `add` is neither `p` nor one of its ancestors: some set of nodes that holds `add` and is
      closed under children leaves `p` out. */
  predicate NotAbove(h: Heap, add: Address, p: Address, below: set<Address>)
  {
    add in below && p !in below && ClosedDown(h, below)
  }

  predicate ClosedDown(h: Heap, below: set<Address>)
  {
    forall n <- h :: h[n].parent.Some? && h[n].parent.value in below ==> n in below
  }

  lemma AcyclicAttach(h: Heap, h': Heap, p: Address, add: Address, below: set<Address>)
    requires Acyclic(h) && h'.Keys == h.Keys && add in h && h'[add].parent == Some(p) && NotAbove(h, add, p, below)
    requires forall n <- h :: n != add ==> h'[n].parent == h[n].parent
    ensures Acyclic(h')
  {
    forall s: set<Address> | s != {} && s <= h'.Keys
      ensures exists n <- s :: h'[n].parent.None? || h'[n].parent.value !in s
    {
      if add in s && p in s {
        var t := s - below;
        assert p in t && t <= h.Keys;
        var m :| m in t && (h[m].parent.None? || h[m].parent.value !in t);
        assert m in s && (h'[m].parent.None? || h'[m].parent.value !in s);
      } else if add in s {
        assert h'[add].parent.value !in s;
      } else {
        var m :| m in s && (h[m].parent.None? || h[m].parent.value !in s);
        assert h'[m].parent.None? || h'[m].parent.value !in s;
      }
    }
  }

  /** `n` is `top` or below it. */
  ghost predicate Under(h: Heap, top: Address, n: Address)
  {
    forall below: set<Address> :: top in below && ClosedDown(h, below) ==> n in below
  }

  /** A set that holds the parents of its nodes, up to `top`. */
  predicate ClosedUp(h: Heap, top: Address, above: set<Address>)
  {
    forall n <- above :: n in h && n != top && h[n].parent.Some? ==> h[n].parent.value in above
  }

  ghost predicate Between(h: Heap, top: Address, p: Address, n: Address)
  {
    forall above: set<Address> :: p in above && ClosedUp(h, top, above) ==> n in above
  }

  lemma UnderChild(h: Heap, top: Address, m: Address)
    requires m in h && h[m].parent.Some? && Under(h, top, h[m].parent.value)
    ensures Under(h, top, m)
  {
  }

  /** Below `top`, every other node has its parent below `top` too. */
  lemma UnderParent(h: Heap, top: Address, n: Address)
    requires n in h && n != top && Under(h, top, n)
    ensures h[n].parent.Some? && Under(h, top, h[n].parent.value)
  {
    var d := set m | m in h.Keys + {top} && Under(h, top, m);
    var less := d - {n};
    assert top in less && n !in less;
    assert !ClosedDown(h, less);
    var m :| m in h && h[m].parent.Some? && h[m].parent.value in less && m !in less;
    assert Under(h, top, m) by { UnderChild(h, top, m); }
    assert m == n;
  }

  /** Putting `add` under `p` closes no cycle exactly if `add` is neither `p` nor above it.  The
      insertions of the source do not check this. */
  lemma AttachAcyclicIff(h: Heap, h': Heap, p: Address, add: Address)
    requires Acyclic(h) && h'.Keys == h.Keys && add in h && p in h
    requires h[add].parent == None && h'[add].parent == Some(p)
    requires forall n <- h :: n != add ==> h'[n].parent == h[n].parent
    ensures Acyclic(h') <==> exists below :: NotAbove(h, add, p, below)
  {
    hide Acyclic, ClosedDown;
    if below :| NotAbove(h, add, p, below) {
      AcyclicAttach(h, h', p, add, below);
    } else {
      NotAboveUnless(h, add, p);
      CycleClosed(h, h', p, add);
    }
  }

  lemma NotAboveUnless(h: Heap, add: Address, p: Address)
    ensures Under(h, add, p) || exists below :: NotAbove(h, add, p, below)
  {
    if !Under(h, add, p) {
      var below :| add in below && ClosedDown(h, below) && p !in below;
      assert NotAbove(h, add, p, below);
    }
  }

  /** The cycle: from `p` up to `add`, and back. */
  lemma CycleClosed(h: Heap, h': Heap, p: Address, add: Address)
    requires h'.Keys == h.Keys && add in h && p in h && Under(h, add, p) && h'[add].parent == Some(p)
    requires forall n <- h :: n != add ==> h'[n].parent == h[n].parent
    ensures !Acyclic(h')
  {
    var t := set n | n in h.Keys && Under(h, add, n) && Between(h, add, p, n);
    forall n <- t
      ensures h'[n].parent.Some? && h'[n].parent.value in t
    {
      if n != add {
        UnderParent(h, add, n);
        BetweenParent(h, add, p, n);
        UnderLives(h, add, h[n].parent.value);
      }
    }
    assert p in t && t <= h'.Keys;
  }

  lemma BetweenParent(h: Heap, top: Address, p: Address, n: Address)
    requires n in h && n != top && h[n].parent.Some? && Between(h, top, p, n)
    ensures Between(h, top, p, h[n].parent.value)
  {
  }

  lemma UnderLives(h: Heap, top: Address, n: Address)
    requires top in h && Under(h, top, n)
    ensures n in h
  {
    assert ClosedDown(h, h.Keys);
  }

  lemma SplicedKeeps(h: Heap, h': Heap, p: Address, ks: seq<Address>, k: nat, add: Address)
    requires ListOk(h, p, ks) && k <= |ks| && Spliced(h, h', p, ks, k, add)
    ensures h'.Keys == h.Keys && h'[add].parent == Some(p)
    ensures forall n <- h :: n != add ==> h'[n].parent == h[n].parent
    ensures forall n <- h :: n != p ==> SameOwner(h, h', n)
    ensures forall n <- h :: n != add && n !in ks ==> SameChild(h, h', n)
  {
  }

  lemma WithMembers(ks: seq<Address>, k: nat, add: Address, n: Address)
    requires k <= |ks|
    ensures n in With(ks, k, add) <==> n in ks || n == add
  {
    assert ks == ks[..k] + ks[k..];
  }

  /** Inserting a loose node puts it into one list and leaves every other list as it was. */
  lemma SplicedOwned(d: Dom, h': Heap, kids: map<Address, seq<Address>>, loose: set<Address>,
                     p: Address, k: nat, add: Address, below: set<Address>)
    requires Owned(d, kids, loose) && p in kids && k <= |kids[p]| && add in loose && d.heap[add].parent == None
    requires NotAbove(d.heap, add, p, below) && Spliced(d.heap, h', p, kids[p], k, add)
    ensures Owned(d.(heap := h'), kids[p := With(kids[p], k, add)], loose - {add})
  {
    hide Acyclic, Spliced, ListOk, Distinct, Placed;
    var h, ks := d.heap, kids[p];
    var kids' := kids[p := With(ks, k, add)];
    NotOwnChild(h, p, ks);
    LooseInNoList(d, kids, p, add);
    SplicedList(h, h', p, ks, k, add);
    SplicedKeeps(h, h', p, ks, k, add);
    forall q <- kids | q != p
      ensures ListOk(h', q, kids[q])
    {
      OtherList(h, p, ks, q, kids[q]);
      LooseInNoList(d, kids, q, add);
      ListKept(h, h', q, kids[q]);
    }
    forall n <- h | n != d.root
      ensures Placed(d.(heap := h'), kids', loose - {add}, n)
    {
      SplicedPlaced(d, h', kids, loose, p, k, add, n);
    }
    AcyclicAttach(h, h', p, add, below);
  }

  lemma LooseInNoList(d: Dom, kids: map<Address, seq<Address>>, q: Address, n: Address)
    requires q in kids && ListOk(d.heap, q, kids[q]) && n in d.heap && d.heap[n].parent == None
    ensures n !in kids[q]
  {
    if n in kids[q] {
      MemberOk(d.heap, q, kids[q], n);
    }
  }

  lemma SplicedPlaced(d: Dom, h': Heap, kids: map<Address, seq<Address>>, loose: set<Address>,
                      p: Address, k: nat, add: Address, n: Address)
    requires n in d.heap && p in kids && k <= |kids[p]| && ListOk(d.heap, p, kids[p])
    requires Spliced(d.heap, h', p, kids[p], k, add) && Placed(d, kids, loose, n)
    requires add in loose && d.heap[add].parent == None
    ensures n in h' && Placed(d.(heap := h'), kids[p := With(kids[p], k, add)], loose - {add}, n)
  {
    hide Spliced, ListOk;
    SplicedKeeps(d.heap, h', p, kids[p], k, add);
    WithMembers(kids[p], k, add, n);
    if n in kids[p] {
      MemberOk(d.heap, p, kids[p], n);
    }
  }

  // ---- The list of unlinked nodes ----

  /** DynArray::SwapRemove. */
  function SwapRemoved(u: seq<Address>, i: nat): seq<Address>
    requires i < |u|
  {
    u[i := u[|u| - 1]][..|u| - 1]
  }

  lemma SwapRemovedMembers(u: seq<Address>, i: nat)
    requires i < |u| && Distinct(u)
    ensures Distinct(SwapRemoved(u, i)) && forall n :: n in SwapRemoved(u, i) <==> n in u && n != u[i]
  {
    var r, last := SwapRemoved(u, i), |u| - 1;
    forall n | n in u && n != u[i]
      ensures n in r
    {
      var j := IndexIn(u, n);
      assert r[if j == last then i else j] == n;
    }
    forall n | n in r
      ensures n in u && n != u[i]
    {
      var j := IndexIn(r, n);
      assert n == u[if j == i then last else j];
    }
  }

  /** Taking a node off the list makes it loose. */
  lemma MarkedOwned(d: Dom, kids: map<Address, seq<Address>>, loose: set<Address>, i: nat)
    requires Owned(d, kids, loose) && i < |d.unlinked|
    ensures Owned(d.(unlinked := SwapRemoved(d.unlinked, i)), kids, loose + {d.unlinked[i]})
  {
    hide Acyclic, ListOk, SwapRemoved, Distinct;
    var u, n := d.unlinked, d.unlinked[i];
    SwapRemovedMembers(u, i);
    forall m <- d.heap | m != d.root
      ensures Placed(d.(unlinked := SwapRemoved(u, i)), kids, loose + {n}, m)
    {
      assert Placed(d, kids, loose, m);
      assert n in u && Placed(d, kids, loose, n);
    }
  }

  // ---- Deletion ----

  /** A loose node without children can go. */
  lemma FreedOwned(d: Dom, kids: map<Address, seq<Address>>, loose: set<Address>, n: Address)
    requires Owned(d, kids, loose) && n in loose && n in kids && kids[n] == [] && d.heap[n].parent == None
    ensures Owned(d.(heap := d.heap - {n}), kids - {n}, loose - {n})
  {
    hide Acyclic, ListOk, Distinct;
    var h, h' := d.heap, d.heap - {n};
    forall p <- kids | p != n
      ensures ListOk(h', p, kids[p])
    {
      LooseInNoList(d, kids, p, n);
      forall c <- kids[p]
        ensures SameChild(h, h', c)
      {
        MemberOk(h, p, kids[p], c);
      }
      ListDistinct(h, p, kids[p]);
      ListKept(h, h', p, kids[p]);
    }
    forall m <- h' | m != d.root
      ensures Placed(d.(heap := h'), kids - {n}, loose - {n}, m)
    {
      assert Placed(d, kids, loose, m);
    }
    assert Placed(d, kids, loose, n);
    AcyclicFreed(h, n);
  }

  lemma AcyclicFreed(h: Heap, n: Address)
    requires Acyclic(h)
    ensures Acyclic(h - {n})
  {
    forall s: set<Address> | s != {} && s <= (h - {n}).Keys
      ensures exists m <- s :: (h - {n})[m].parent.None? || (h - {n})[m].parent.value !in s
    {
      assert s <= h.Keys;
      var m :| m in s && (h[m].parent.None? || h[m].parent.value !in s);
      assert m in h - {n};
    }
  }

  /** When the document has no children and nothing is unlinked, no node is left. */
  lemma NothingLeft(d: Dom, kids: map<Address, seq<Address>>)
    requires Owned(d, kids, {}) && kids[d.root] == [] && d.unlinked == []
    ensures d.heap.Keys == {d.root}
  {
    var s := d.heap.Keys - {d.root};
    assert s <= d.heap.Keys;
    forall n <- s
      ensures d.heap[n].parent.Some? && d.heap[n].parent.value in s
    {
      assert Placed(d, kids, {}, n);
    }
  }

  // ---- The document ----

  /** The lists once a node has been taken out of its parent, if it has one. */
  function Detached(h: Heap, kids: map<Address, seq<Address>>, n: Address): (r: map<Address, seq<Address>>)
    requires n in h
    ensures r.Keys == kids.Keys
  {
    match h[n].parent
    case Some(p) =>
      if p in kids && n in kids[p] then kids[p := Without(kids[p], IndexIn(kids[p], n))] else kids
    case None => kids
  }

  /** `add` among the children of `p`, right after `after`. */
  function PutAfter(kids: map<Address, seq<Address>>, p: Address, after: Address, add: Address): map<Address, seq<Address>>
    requires p in kids && after in kids[p]
  {
    kids[p := With(kids[p], IndexIn(kids[p], after) + 1, add)]
  }

  class Document {
    const root: Address
    var heap: Heap
    var unlinked: seq<Address>
    ghost var kids: map<Address, seq<Address>>

    ghost function State(): Dom
      reads this
    {
      Dom(heap, root, unlinked)
    }

    /** The lists are as `kids` says, and only the `loose` nodes are in nobody's hands. */
    ghost predicate Valid(loose: set<Address>)
      reads this
    {
      Owned(State(), kids, loose)
    }

    constructor (address: Address)
      ensures Valid({}) && root == address && heap.Keys == {root} && kids == map[root := []] && unlinked == []
    {
      root, heap, unlinked, kids := address, map[address := NEW_NODE], [], map[address := []];
      new;
      assert Acyclic(heap);
    }

    /** The allocator hands out an address that is not in use. */
    method CreateUnlinkedNode(n: Address)
      requires Valid({}) && n !in heap
      modifies this
      ensures Valid({}) && heap == old(heap)[n := NEW_NODE] && kids == old(kids)[n := []]
      ensures unlinked == old(unlinked) + [n]
    {
      CreatedOwned(State(), kids, n);
      heap, unlinked, kids := heap[n := NEW_NODE], unlinked + [n], kids[n := []];
    }

    method MarkInUse(n: Address, ghost loose: set<Address>)
      requires Valid(loose) && n in heap && n != root && heap[n].parent == None
      modifies this`unlinked
      ensures Valid(loose + {n})
      ensures n !in old(unlinked) ==> unlinked == old(unlinked)
      ensures forall m :: m in unlinked <==> m in old(unlinked) && m != n
    {
      hide Owned, SwapRemoved;
      var i := 0;
      while i < |unlinked|
        invariant 0 <= i <= |unlinked| && unlinked == old(unlinked) && n !in unlinked[..i]
      {
        if unlinked[i] == n {
          MarkedOwned(State(), kids, loose, i);
          OwnedDistinct(State(), kids, loose);
          SwapRemovedMembers(unlinked, i);
          unlinked := SwapRemoved(unlinked, i);
          return;
        }
        assert unlinked[..i + 1] == unlinked[..i] + [unlinked[i]];
        i := i + 1;
      }
      assert unlinked[..i] == unlinked;
      LooseThen(State(), kids, loose, n);
    }

    method Unlink(p: Address, c: Address, ghost loose: set<Address>)
      requires Valid(loose) && c in heap && heap[c].parent == Some(p)
      requires p in kids && c in kids[p]
      modifies this
      ensures Valid(loose + {c}) && unlinked == old(unlinked)
      ensures kids == Detached(old(heap), old(kids), c)
      ensures Cut(old(heap), heap, p, old(kids)[p], IndexIn(old(kids)[p], c))
    {
      hide Owned, Cut;
      ghost var result := UnlinkOwned(State(), kids, loose, p, c);
      ghost var before := heap;
      if heap[p].first == Some(c) {
        heap := SetFirst(heap, p, heap[c].next);
      }
      if heap[p].last == Some(c) {
        heap := SetLast(heap, p, heap[c].prev);
      }
      if heap[c].prev.Some? {
        heap := SetNext(heap, heap[c].prev.value, heap[c].next);
      }
      if heap[c].next.Some? {
        heap := SetPrev(heap, heap[c].next.value, heap[c].prev);
      }
      heap := heap[c := heap[c].(next := None, prev := None, parent := None)];
      assert heap == result.heap;
      kids := Detached(before, kids, c);
    }

    method InsertChildPreamble(add: Address)
      requires Valid({}) && add in heap && add != root
      modifies this
      ensures kids.Keys == old(heap).Keys
      ensures Valid({add}) && heap.Keys == old(heap).Keys && heap[add].parent == None
      ensures kids == Detached(old(heap), old(kids), add)
      ensures forall n <- old(heap) :: n != add ==> heap[n].parent == old(heap)[n].parent
      ensures old(heap)[add].parent == None ==> heap == old(heap)
    {
      hide Owned, Cut;
      ParentOk(State(), kids, {}, add);
      if heap[add].parent.Some? {
        var p := heap[add].parent.value;
        ghost var h := heap;
        Unlink(p, add, {});
        CutKeeps(h, heap, p, old(kids)[p], IndexIn(old(kids)[p], add));
        assert {} + {add} == {add};
      } else {
        MarkInUse(add, {});
        assert {} + {add} == {add};
      }
    }

    /** A loose node becomes the last child. */
    method LinkLast(p: Address, add: Address, ghost below: set<Address>)
      requires Valid({add}) && p in kids && add in heap && heap[add].parent == None && NotAbove(heap, add, p, below)
      modifies this
      ensures Valid({}) && heap.Keys == old(heap).Keys && kids == old(kids)[p := old(kids)[p] + [add]]
    {
      hide Owned, NotAbove;
      ghost var result := AppendOwned(State(), kids, p, add, below);
      if heap[p].last.Some? {
        var last := heap[p].last.value;
        heap := SetNext(heap, last, Some(add));
        heap := SetPrev(heap, add, Some(last));
        heap := SetLast(heap, p, Some(add));
        heap := SetNext(heap, add, None);
      } else {
        heap := SetFirst(heap, p, Some(add));
        heap := SetLast(heap, p, Some(add));
        heap := SetPrev(heap, add, None);
        heap := SetNext(heap, add, None);
      }
      heap := SetParent(heap, add, Some(p));
      assert heap == result.heap;
      kids := kids[p := kids[p] + [add]];
    }

    method InsertEndChild(p: Address, add: Address, ghost below: set<Address>)
      requires Valid({}) && p in heap && add in heap && add != root && NotAbove(heap, add, p, below)
      modifies this
      ensures Valid({}) && heap.Keys == old(heap).Keys
      ensures var rest := Detached(old(heap), old(kids), add);
              p in rest && kids == rest[p := rest[p] + [add]]
    {
      hide Owned, Detached;
      InsertChildPreamble(add);
      LinkLast(p, add, below);
    }

    method LinkFirst(p: Address, add: Address, ghost below: set<Address>)
      requires Valid({add}) && p in kids && add in heap && heap[add].parent == None && NotAbove(heap, add, p, below)
      modifies this
      ensures Valid({}) && heap.Keys == old(heap).Keys && kids == old(kids)[p := [add] + old(kids)[p]]
    {
      hide Owned, NotAbove;
      ghost var result := PrependOwned(State(), kids, p, add, below);
      if heap[p].first.Some? {
        var first := heap[p].first.value;
        heap := SetPrev(heap, first, Some(add));
        heap := SetNext(heap, add, Some(first));
        heap := SetFirst(heap, p, Some(add));
        heap := SetPrev(heap, add, None);
      } else {
        heap := SetFirst(heap, p, Some(add));
        heap := SetLast(heap, p, Some(add));
        heap := SetPrev(heap, add, None);
        heap := SetNext(heap, add, None);
      }
      heap := SetParent(heap, add, Some(p));
      assert heap == result.heap;
      kids := kids[p := [add] + kids[p]];
    }

    method InsertFirstChild(p: Address, add: Address, ghost below: set<Address>)
      requires Valid({}) && p in heap && add in heap && add != root && NotAbove(heap, add, p, below)
      modifies this
      ensures Valid({}) && heap.Keys == old(heap).Keys
      ensures var rest := Detached(old(heap), old(kids), add);
              p in rest && kids == rest[p := [add] + rest[p]]
    {
      hide Owned, Detached;
      InsertChildPreamble(add);
      LinkFirst(p, add, below);
    }

    method LinkAfter(p: Address, after: Address, add: Address, ghost below: set<Address>)
      requires Valid({add}) && p in kids && add in heap && heap[add].parent == None && NotAbove(heap, add, p, below)
      requires after in kids[p] && IndexIn(kids[p], after) + 1 < |kids[p]|
      modifies this
      ensures Valid({}) && heap.Keys == old(heap).Keys && kids == PutAfter(old(kids), p, after, add)
    {
      hide Owned, NotAbove;
      ghost var result := AfterOwned(State(), kids, p, after, add, below);
      heap := SetPrev(heap, add, Some(after));
      heap := SetNext(heap, add, heap[after].next);
      heap := SetPrev(heap, heap[after].next.value, Some(add));
      heap := SetNext(heap, after, Some(add));
      heap := SetParent(heap, add, Some(p));
      assert heap == result.heap;
      kids := PutAfter(kids, p, after, add);
    }

    /** If `add` is the last child and stands right after `after`, the source reads a null
        pointer: it unlinks `add` and then follows `after->_next` again.  Everywhere else the
        added node ends up right after `after`. */
    method InsertAfterChild(p: Address, after: Address, add: Address, ghost below: set<Address>) returns (r: Option<Address>)
      requires Valid({}) && p in heap && after in heap && after != root && add in heap && add != root
      requires heap[after].parent == Some(p) && after != add ==> NotAbove(heap, add, p, below)
      requires !(heap[after].next == Some(add) && heap[add].next == None && heap[after].parent == Some(p))
      modifies this
      ensures Valid({}) && heap.Keys == old(heap).Keys
      ensures old(heap)[after].parent != Some(p) ==> r == None && heap == old(heap) && kids == old(kids)
      ensures old(heap)[after].parent == Some(p) ==> r == Some(add)
      ensures after == add ==> heap == old(heap) && kids == old(kids)
      ensures old(heap)[after].parent == Some(p) && after != add ==>
                var rest := Detached(old(heap), old(kids), add);
                p in rest && after in rest[p] && kids == PutAfter(rest, p, after, add)
    {
      hide Owned, Detached, PutAfter;
      if heap[after].parent != Some(p) {
        return None;
      }
      if after == add {
        return Some(add);
      }
      AfterOk(State(), kids, p, after, add);
      if heap[after].next.None? {
        PutLast(Detached(heap, kids, add), p, after, add);
        InsertEndChild(p, add, below);
        return Some(add);
      }
      InsertChildPreamble(add);
      LinkAfter(p, after, add, below);
      return Some(add);
    }

    /** XMLNode::DeleteNode: the node goes with everything below it, and nothing else
        changes. */
    method DeleteNode(n: Address, ghost loose: set<Address>)
      requires Valid(loose) && n in heap && n != root && heap[n].parent == None
      modifies this
      ensures Valid(loose - {n}) && n !in heap && Below(old(heap), heap, n)
      ensures Untouched(old(heap), old(kids), heap, kids)
      ensures n !in old(unlinked) ==> unlinked == old(unlinked)
      ensures forall m :: m in unlinked <==> m in old(unlinked) && m != n
      decreases heap.Keys - (loose + {n}), 1
    {
      hide Owned, Untouched, Below;
      ghost var h, ks := heap, kids;
      OwnedKeys(State(), kids, loose);
      MarkInUse(n, loose);
      DeleteChildren(n, loose + {n});
      FreedOwned(State(), kids, loose + {n}, n);
      FreedBelow(h, ks, heap, kids, n);
      heap, kids := heap - {n}, kids - {n};
      assert loose + {n} - {n} == loose - {n};
    }

    method DeleteChildren(p: Address, ghost loose: set<Address>)
      requires Valid(loose) && p in heap
      modifies this
      ensures Valid(loose) && p in heap && p in kids && kids[p] == []
      ensures Place(heap[p]) == Place(old(heap)[p])
      ensures Untouched(old(heap) - {p}, old(kids) - {p}, heap - {p}, kids - {p}) && Below(old(heap), heap, p)
      ensures unlinked == old(unlinked)
      decreases heap.Keys - loose, 0
    {
      hide Owned, Untouched, Below;
      OwnedKeys(State(), kids, loose);
      OwnedList(State(), kids, loose, p);
      StartDeleting(heap, kids, p);
      while heap[p].first.Some?
        invariant Valid(loose) && p in heap && p in kids && unlinked == old(unlinked) && heap.Keys <= old(heap).Keys
        invariant Deleting(old(heap), old(kids), heap, kids, p)
        decreases |kids[p]|
      {
        var c := heap[p].first.value;
        ghost var before := Dom(heap, root, unlinked);
        ghost var ks := kids;
        FirstChild(State(), kids, loose, p);
        Unlink(p, c, loose);
        ghost var cut := heap;
        DeleteNode(c, loose + {c});
        assert loose + {c} - {c} == loose;
        DeletedOne(old(heap), old(kids), before, ks, loose, cut, State(), kids, p, c);
      }
      OwnedList(State(), kids, loose, p);
      DoneDeleting(old(heap), old(kids), heap, kids, p);
    }

    /** The child goes with everything below it; the other lists, and its siblings in order,
        stay. */
    method DeleteChild(p: Address, c: Address)
      requires Valid({}) && c in heap && c != root && heap[c].parent == Some(p)
      modifies this
      ensures Valid({}) && c !in heap && p in heap && unlinked == old(unlinked)
      ensures forall m <- kids :: m in old(kids) && kids[m] == Detached(old(heap), old(kids), c)[m]
    {
      hide Owned, Cut, Detached, Below;
      ghost var d, ks := State(), kids;
      ParentOk(d, ks, {}, c);
      ListedOrLinked(d, ks, c);
      Unlink(p, c, {});
      ghost var cut := heap;
      CutKeeps(d.heap, cut, p, ks[p], IndexIn(ks[p], c));
      assert {} + {c} == {c};
      DeleteNode(c, {c});
      ParentSurvives(d, ks, {}, cut, heap, p, c);
      assert {c} - {c} == {};
    }

    /** Clear terminates, and no node is left. */
    method Clear()
      requires Valid({})
      modifies this
      ensures Valid({}) && heap.Keys == {root} && unlinked == [] && kids == map[root := []]
    {
      hide Owned, Below;
      OwnedKeys(State(), kids, {});
      DeleteChildren(root, {});
      while |unlinked| > 0
        invariant Valid({}) && root in kids && kids[root] == []
        decreases heap.Keys
      {
        var n := unlinked[0];
        ListedOrLinked(State(), kids, n);
        DeleteNode(n, {});
        assert {} - {n} == {};
        OwnedKeys(State(), kids, {});
      }
      NothingLeft(State(), kids);
      OwnedKeys(State(), kids, {});
      assert kids == map[root := []];
    }
  }

  // ---- What deletion leaves alone ----

  /** The nodes that are left are as they were. */
  predicate Untouched(h: Heap, kids: map<Address, seq<Address>>, h': Heap, kids': map<Address, seq<Address>>)
  {
    && h'.Keys <= h.Keys && kids'.Keys <= kids.Keys
    && (forall m <- h' :: h'[m] == h[m]) && forall m <- kids' :: kids'[m] == kids[m]
  }

  /** Every node that went, other than `n`, went with its parent, or was a child of `n`. */
  predicate Below(h: Heap, h': Heap, n: Address)
  {
    forall m <- h :: m !in h' && m != n ==> h[m].parent.Some? && (h[m].parent.value == n || h[m].parent.value !in h')
  }

  /** Half-way through: some of the first children of `p` are gone. */
  predicate Deleting(h: Heap, kids: map<Address, seq<Address>>, h': Heap, kids': map<Address, seq<Address>>, p: Address)
  {
    && p in h && p in h' && p in kids && p in kids' && Place(h'[p]) == Place(h[p])
    && (forall m <- h' :: m in h && h'[m].parent == h[m].parent && (m != p && m !in kids'[p] ==> h'[m] == h[m]))
    && (forall m <- kids' :: m in kids && (m != p ==> kids'[m] == kids[m]))
    && Below(h, h', p)
  }

  lemma StartDeleting(h: Heap, kids: map<Address, seq<Address>>, p: Address)
    requires p in h && p in kids
    ensures Deleting(h, kids, h, kids, p)
  {
  }

  lemma FirstChild(d: Dom, kids: map<Address, seq<Address>>, loose: set<Address>, p: Address)
    requires Owned(d, kids, loose) && p in kids && p in d.heap && d.heap[p].first.Some?
    ensures var c := d.heap[p].first.value;
            && c in d.heap && d.heap[c].parent == Some(p) && c != d.root && c !in loose && c !in d.unlinked
            && kids[p] != [] && kids[p][0] == c && IndexIn(kids[p], c) == 0
            && Detached(d.heap, kids, c) == kids[p := kids[p][1..]]
  {
    hide Acyclic;
    var ks := kids[p];
    assert ListOk(d.heap, p, ks);
    assert LinkOk(d.heap, p, ks, 0);
    assert Placed(d, kids, loose, ks[0]);
    assert Without(ks, 0) == ks[1..];
  }

  /** A node is not below its own child. */
  lemma ParentSurvives(d: Dom, kids: map<Address, seq<Address>>, loose: set<Address>, cut: Heap, h': Heap, p: Address, c: Address)
    requires Owned(d, kids, loose) && p in d.heap && c in d.heap && d.heap[c].parent == Some(p)
    requires cut.Keys == d.heap.Keys && forall m <- d.heap :: m != c ==> cut[m].parent == d.heap[m].parent
    requires Below(cut, h', c) && c !in h'
    ensures p in h'
  {
    hide ListOk;
    var s := d.heap.Keys - h'.Keys;
    assert s <= d.heap.Keys && c in s;
    if p !in h' {
      forall m <- s
        ensures d.heap[m].parent.Some? && d.heap[m].parent.value in s
      {
        if m != c {
          assert cut[m].parent == d.heap[m].parent;
          assert m != d.root && Placed(d, kids, loose, m);
        }
      }
    }
  }

  lemma DeletedOne(h0: Heap, k0: map<Address, seq<Address>>, d: Dom, kids: map<Address, seq<Address>>, loose: set<Address>,
                   cut: Heap, d': Dom, kids': map<Address, seq<Address>>, p: Address, c: Address)
    requires Deleting(h0, k0, d.heap, kids, p) && Owned(d, kids, loose) && Owned(d', kids', loose)
    requires kids[p] != [] && kids[p][0] == c && Cut(d.heap, cut, p, kids[p], 0)
    requires c !in d'.heap && Below(cut, d'.heap, c) && Untouched(cut, kids[p := kids[p][1..]], d'.heap, kids')
    ensures p in d'.heap && Deleting(h0, k0, d'.heap, kids', p) && |kids'[p]| < |kids[p]|
  {
    hide Owned, Cut, Acyclic, ListOk, Below, SameOwner, Place;
    var ks := kids[p];
    OwnedList(d, kids, loose, p);
    OwnedKeys(d', kids', loose);
    MemberOk(d.heap, p, ks, c);
    NotOwnChild(d.heap, p, ks);
    CutKeeps(d.heap, cut, p, ks, 0);
    ParentSurvives(d, kids, loose, cut, d'.heap, p, c);
    assert ks == [c] + kids'[p];
    NodesLeft(h0, d.heap, ks, cut, d'.heap, kids'[p], p, c);
    StillBelow(h0, d.heap, cut, d'.heap, p, c);
  }

  /** The nodes left: as they were at the start, but for `p` and the children it still has. */
  lemma NodesLeft(h0: Heap, h: Heap, ks: seq<Address>, cut: Heap, h': Heap, ks': seq<Address>, p: Address, c: Address)
    requires forall m <- h :: m in h0 && h[m].parent == h0[m].parent && (m != p && m !in ks ==> h[m] == h0[m])
    requires cut.Keys == h.Keys && ks == [c] + ks' && c !in h'
    requires forall m <- h :: m != c ==> cut[m].parent == h[m].parent
    requires forall m <- h :: m != p ==> SameOwner(h, cut, m)
    requires forall m <- h :: m !in ks ==> SameChild(h, cut, m)
    requires h'.Keys <= cut.Keys && forall m <- h' :: h'[m] == cut[m]
    ensures forall m <- h' :: m in h0 && h'[m].parent == h0[m].parent && (m != p && m !in ks' ==> h'[m] == h0[m])
  {
    hide SameOwner, SameChild;
    forall m <- h'
      ensures m in h0 && h'[m].parent == h0[m].parent && (m != p && m !in ks' ==> h'[m] == h0[m])
    {
      assert m in h && m != c;
      if m != p && m !in ks' {
        assert m !in ks;
        SameNode(h, cut, m);
      }
    }
  }

  lemma StillBelow(h0: Heap, h: Heap, cut: Heap, h': Heap, p: Address, c: Address)
    requires Below(h0, h, p) && Below(cut, h', c) && cut.Keys == h.Keys && h'.Keys <= h.Keys && c in h && c !in h'
    requires forall m <- h :: m in h0 && h[m].parent == h0[m].parent && (m != c ==> cut[m].parent == h[m].parent)
    requires h[c].parent == Some(p)
    ensures Below(h0, h', p)
  {
  }

  lemma SameNode(h: Heap, h': Heap, m: Address)
    requires SameOwner(h, h', m) && SameChild(h, h', m)
    ensures h'[m] == h[m]
  {
  }

  lemma DoneDeleting(h: Heap, kids: map<Address, seq<Address>>, h': Heap, kids': map<Address, seq<Address>>, p: Address)
    requires Deleting(h, kids, h', kids', p) && ListOk(h', p, kids'[p]) && h'[p].first == None
    ensures kids'[p] == [] && Untouched(h - {p}, kids - {p}, h' - {p}, kids' - {p})
  {
  }

  lemma FreedBelow(h: Heap, kids: map<Address, seq<Address>>, h': Heap, kids': map<Address, seq<Address>>, n: Address)
    requires n in h && n in kids && Untouched(h - {n}, kids - {n}, h' - {n}, kids' - {n}) && Below(h, h', n)
    ensures Untouched(h, kids, h' - {n}, kids' - {n}) && Below(h, h' - {n}, n)
  {
  }

  /** Where `after` stands once `add` has been detached: last exactly if it was, or if `add`
      alone came after it. */
  lemma AfterOk(d: Dom, kids: map<Address, seq<Address>>, p: Address, after: Address, add: Address)
    requires Owned(d, kids, {}) && after in d.heap && after != d.root && add in d.heap && add != d.root && after != add
    requires d.heap[after].parent == Some(p)
    ensures var rest := Detached(d.heap, kids, add);
            && p in rest && after in rest[p]
            && var last := d.heap[after].next == None || (d.heap[after].next == Some(add) && d.heap[add].next == None);
               if last then IndexIn(rest[p], after) + 1 == |rest[p]| else IndexIn(rest[p], after) + 1 < |rest[p]|
  {
    hide Owned, ListOk, Without;
    ParentOk(d, kids, {}, after);
    ParentOk(d, kids, {}, add);
    var ks := kids[p];
    NextOf(d.heap, p, ks, after);
    if d.heap[add].parent == Some(p) {
      NextOf(d.heap, p, ks, add);
      ListDistinct(d.heap, p, ks);
      IndexWithout(ks, IndexIn(ks, add), IndexIn(ks, after));
      if d.heap[after].next == Some(add) {
        DistinctIndex(ks, IndexIn(ks, after) + 1);
      }
    } else {
      OtherParent(d.heap, p, ks, add);
    }
  }

  /** The one case that InsertAfterChild leaves out: once `add` is unlinked, `after` has no next
      sibling any more, and the source goes on to write through that null pointer. */
  lemma InsertAfterReadsNull(d: Dom, kids: map<Address, seq<Address>>, p: Address, after: Address, add: Address)
    requires Owned(d, kids, {}) && after in d.heap && after != d.root && d.heap[after].parent == Some(p)
    requires d.heap[after].next == Some(add) && add in d.heap && add != d.root && d.heap[add].next == None
    requires d.heap[add].parent == Some(p)
    ensures Neighbours(d.heap, p, add) && Unlinked(d.heap, p, add)[after].next == None
  {
    hide Owned, ListOk, Unlinked, Acyclic;
    ParentOk(d, kids, {}, after);
    ParentOk(d, kids, {}, add);
    var ks := kids[p];
    OwnedList(d, kids, {}, p);
    NotOwnChild(d.heap, p, ks);
    NextOf(d.heap, p, ks, after);
    NextOf(d.heap, p, ks, add);
    ListDistinct(d.heap, p, ks);
    DistinctIndex(ks, IndexIn(ks, after) + 1);
    UnlinkCuts(d.heap, p, ks, IndexIn(ks, add));
  }

  lemma OtherParent(h: Heap, p: Address, ks: seq<Address>, c: Address)
    requires ListOk(h, p, ks) && c in h && h[c].parent != Some(p)
    ensures c !in ks
  {
    if c in ks {
      MemberOk(h, p, ks, c);
    }
  }

  lemma PutLast(kids: map<Address, seq<Address>>, p: Address, after: Address, add: Address)
    requires p in kids && after in kids[p] && IndexIn(kids[p], after) + 1 == |kids[p]|
    ensures PutAfter(kids, p, after, add) == kids[p := kids[p] + [add]]
  {
    assert With(kids[p], |kids[p]|, add) == kids[p] + [add];
  }

  lemma NextOf(h: Heap, p: Address, ks: seq<Address>, c: Address)
    requires ListOk(h, p, ks) && c in ks
    ensures c in h && h[c].next == At(ks, IndexIn(ks, c) + 1)
  {
    assert LinkOk(h, p, ks, IndexIn(ks, c));
  }

  lemma IndexWithout(ks: seq<Address>, j: nat, k: nat)
    requires Distinct(ks) && j < |ks| && k < |ks| && j != k
    ensures var rest := Without(ks, j);
            |rest| == |ks| - 1 && ks[k] in rest && IndexIn(rest, ks[k]) == if k < j then k else k - 1
  {
    var rest, k' := Without(ks, j), if k < j then k else k - 1;
    assert rest[k'] == ks[k];
    WithoutDistinct(ks, j);
    DistinctIndex(rest, k');
  }

  lemma DistinctIndex(ks: seq<Address>, i: nat)
    requires i < |ks| && Distinct(ks)
    ensures ks[i] in ks && IndexIn(ks, ks[i]) == i
  {
  }

  lemma WithoutDistinct(ks: seq<Address>, k: nat)
    requires k < |ks| && Distinct(ks)
    ensures Distinct(Without(ks, k))
  {
    var rest := Without(ks, k);
    forall i, j | 0 <= i < j < |rest|
      ensures rest[i] != rest[j]
    {
      assert rest[i] == ks[if i < k then i else i + 1] && rest[j] == ks[if j < k then j else j + 1];
    }
  }

  lemma AfterOwned(d: Dom, kids: map<Address, seq<Address>>, p: Address, after: Address, add: Address, below: set<Address>)
    returns (e: Dom)
    requires Owned(d, kids, {add}) && add in d.heap && d.heap[add].parent == None && NotAbove(d.heap, add, p, below)
    requires p in kids && after in kids[p] && IndexIn(kids[p], after) + 1 < |kids[p]|
    ensures p in d.heap && after in d.heap && d.heap[after].next.Some?
    ensures var next := d.heap[after].next.value; next in d.heap && after != add && next != add && next != after
    ensures e == d.(heap := InsertedAfter(d.heap, p, after, add)) && Owned(e, PutAfter(kids, p, after, add), {})
  {
    hide Owned, ListOk, Acyclic, Spliced, InsertedAfter;
    var ks := kids[p];
    var k := IndexIn(ks, after);
    OwnedList(d, kids, {add}, p);
    NotOwnChild(d.heap, p, ks);
    LooseInNoList(d, kids, p, add);
    AfterSplices(d.heap, p, ks, add, k);
    e := d.(heap := InsertedAfter(d.heap, p, after, add));
    SplicedOwned(d, e.heap, kids, {add}, p, k + 1, add, below);
    assert {add} - {add} == {};
  }

  lemma PrependOwned(d: Dom, kids: map<Address, seq<Address>>, p: Address, add: Address, below: set<Address>) returns (e: Dom)
    requires Owned(d, kids, {add}) && p in kids && add in d.heap && d.heap[add].parent == None
    requires NotAbove(d.heap, add, p, below)
    ensures p in d.heap && (d.heap[p].first.Some? ==> d.heap[p].first.value in d.heap)
    ensures e == d.(heap := PrependedChild(d.heap, p, add)) && Owned(e, kids[p := [add] + kids[p]], {})
  {
    hide Owned, ListOk, Acyclic, Spliced, PrependedChild;
    var ks := kids[p];
    OwnedList(d, kids, {add}, p);
    NotOwnChild(d.heap, p, ks);
    LooseInNoList(d, kids, p, add);
    PrependSplices(d.heap, p, ks, add);
    e := d.(heap := PrependedChild(d.heap, p, add));
    SplicedOwned(d, e.heap, kids, {add}, p, 0, add, below);
    assert With(ks, 0, add) == [add] + ks;
    assert {add} - {add} == {};
  }

  lemma ParentOk(d: Dom, kids: map<Address, seq<Address>>, loose: set<Address>, n: Address)
    requires Owned(d, kids, loose) && n in d.heap && n != d.root
    ensures d.heap[n].parent.Some? ==>
              var p := d.heap[n].parent.value; p in kids && n in kids[p] && ListOk(d.heap, p, kids[p])
    ensures kids.Keys == d.heap.Keys
  {
    assert Placed(d, kids, loose, n);
  }

  lemma AppendOwned(d: Dom, kids: map<Address, seq<Address>>, p: Address, add: Address, below: set<Address>) returns (e: Dom)
    requires Owned(d, kids, {add}) && p in kids && add in d.heap && d.heap[add].parent == None
    requires NotAbove(d.heap, add, p, below)
    ensures p in d.heap && (d.heap[p].last.Some? ==> d.heap[p].last.value in d.heap)
    ensures e == d.(heap := AppendedChild(d.heap, p, add)) && Owned(e, kids[p := kids[p] + [add]], {})
  {
    hide Owned, ListOk, Acyclic, Spliced, AppendedChild;
    var ks := kids[p];
    OwnedList(d, kids, {add}, p);
    NotOwnChild(d.heap, p, ks);
    LooseInNoList(d, kids, p, add);
    AppendSplices(d.heap, p, ks, add);
    e := d.(heap := AppendedChild(d.heap, p, add));
    SplicedOwned(d, e.heap, kids, {add}, p, |ks|, add, below);
    assert With(ks, |ks|, add) == ks + [add];
    assert {add} - {add} == {};
  }

  lemma UnlinkOwned(d: Dom, kids: map<Address, seq<Address>>, loose: set<Address>, p: Address, c: Address) returns (e: Dom)
    requires Owned(d, kids, loose) && c in d.heap && d.heap[c].parent == Some(p) && p in kids && c in kids[p]
    ensures Neighbours(d.heap, p, c) && e == d.(heap := Unlinked(d.heap, p, c))
    ensures Owned(e, Detached(d.heap, kids, c), loose + {c})
    ensures Cut(d.heap, e.heap, p, kids[p], IndexIn(kids[p], c))
  {
    hide Cut, Unlinked;
    var ks, k := kids[p], IndexIn(kids[p], c);
    NotOwnChild(d.heap, p, ks);
    UnlinkCuts(d.heap, p, ks, k);
    e := d.(heap := Unlinked(d.heap, p, c));
    CutOwned(d, e.heap, kids, loose, p, k);
  }

  lemma OwnedList(d: Dom, kids: map<Address, seq<Address>>, loose: set<Address>, p: Address)
    requires Owned(d, kids, loose) && p in kids
    ensures ListOk(d.heap, p, kids[p]) && Acyclic(d.heap) && kids.Keys == d.heap.Keys && loose <= d.heap.Keys
  {
  }

  lemma OwnedKeys(d: Dom, kids: map<Address, seq<Address>>, loose: set<Address>)
    requires Owned(d, kids, loose)
    ensures kids.Keys == d.heap.Keys && d.root in d.heap
  {
  }

  /** A listed node has no parent, and a node with a parent is not listed. */
  lemma ListedOrLinked(d: Dom, kids: map<Address, seq<Address>>, n: Address)
    requires Owned(d, kids, {}) && (n in d.unlinked || n in d.heap)
    ensures n in d.unlinked ==> n in d.heap && n != d.root && d.heap[n].parent == None
    ensures n in d.heap && d.heap[n].parent.Some? ==> n !in d.unlinked
    ensures kids.Keys == d.heap.Keys
  {
    if n in d.heap && n != d.root {
      assert Placed(d, kids, {}, n);
    }
  }

  lemma OwnedDistinct(d: Dom, kids: map<Address, seq<Address>>, loose: set<Address>)
    requires Owned(d, kids, loose)
    ensures Distinct(d.unlinked)
  {
  }

  /** A parentless node that is not listed is already loose. */
  lemma LooseThen(d: Dom, kids: map<Address, seq<Address>>, loose: set<Address>, n: Address)
    requires Owned(d, kids, loose) && n in d.heap && n != d.root && d.heap[n].parent == None && n !in d.unlinked
    ensures n in loose && loose + {n} == loose
  {
    assert Placed(d, kids, loose, n);
  }

  lemma CreatedOwned(d: Dom, kids: map<Address, seq<Address>>, n: Address)
    requires Owned(d, kids, {}) && n !in d.heap
    ensures Owned(Dom(d.heap[n := NEW_NODE], d.root, d.unlinked + [n]), kids[n := []], {})
  {
    hide Acyclic, ListOk;
    var h, h' := d.heap, d.heap[n := NEW_NODE];
    forall p <- kids
      ensures ListOk(h', p, kids[p])
    {
      forall c <- kids[p]
        ensures SameChild(h, h', c)
      {
        MemberOk(h, p, kids[p], c);
      }
      ListKept(h, h', p, kids[p]);
    }
    NewList(h', n);
    var e := Dom(h', d.root, d.unlinked + [n]);
    forall m <- h' | m != d.root
      ensures Placed(e, kids[n := []], {}, m)
    {
      assert m != n ==> Placed(d, kids, {}, m);
    }
    AcyclicCreated(h, n);
  }

  lemma NewList(h: Heap, n: Address)
    requires n in h && h[n] == NEW_NODE
    ensures ListOk(h, n, [])
  {
  }

  lemma AcyclicCreated(h: Heap, n: Address)
    requires Acyclic(h) && n !in h
    ensures Acyclic(h[n := NEW_NODE])
  {
    var h' := h[n := NEW_NODE];
    forall s: set<Address> | s != {} && s <= h'.Keys
      ensures exists m <- s :: h'[m].parent.None? || h'[m].parent.value !in s
    {
      if n in s {
        assert h'[n].parent.None?;
      } else {
        assert s <= h.Keys;
        var m :| m in s && (h[m].parent.None? || h[m].parent.value !in s);
        assert h'[m].parent.None? || h'[m].parent.value !in s;
      }
    }
  }
}
