/**
 What an accepted text leaves on the document's stack.  The text denotes a tree; the handler,
 which is told 32-bit counts and lengths, rebuilds it exactly if no container has 2^32 or more
 members and no string 2^32 - 1 or more bytes.
 */
module JsonBuild {
  import opened ByteStrings
  import opened Utf8
  import opened JsonLexer
  import opened JsonReader
  import opened JsonDocument

  // ---- The tree of a text ----

  /** No container has 2^32 or more members. */
  predicate Slim(v: JValue)
  {
    match v
    case JArray(es) => |es| < WIDTH && AllSlim(es)
    case JObject(ms) => |ms| < WIDTH && MembersSlim(ms)
    case _ => true
  }

  predicate AllSlim(es: seq<JValue>) { forall e <- es :: Slim(e) }

  predicate MembersSlim(ms: seq<Member>) { forall m <- ms :: Slim(m.value) }

  predicate Narrow(v: JValue) { Slim(v) && BriefTree(v) }

  /** The value of a leaf, from its one event. */
  function LeafTree(events: seq<Event>): (v: JValue)
    ensures Slim(v) && Extra(v) == 0
  {
    if |events| != 1 then JNull
    else
      var r := Handle([], events[0]);
      if r.Some? && |r.value| == 1 && !r.value[0].JArray? && !r.value[0].JObject? then r.value[0] else JNull
  }

  /** The tree that the value at `i` denotes, with all its members. */
  function TreeAt(s: Bytes, f: Flags, i: nat): (v: JValue)
    requires i <= |s| && Value(s, f, i).Done?
    ensures |s| - i < WIDTH ==> Narrow(v)
    decreases |s| - i, 1
  {
    if Peek(s, i) == Ch('{') then
      assert ObjectBody(s, f, i + 1).Done?;
      var j := Skip(s, f, i + 1).value;
      JObject(if Peek(s, j) == Ch('}') then [] else MemberTrees(s, f, j, 0))
    else if Peek(s, i) == Ch('[') then
      assert ArrayBody(s, f, i + 1).Done?;
      var j := Skip(s, f, i + 1).value;
      JArray(if Peek(s, j) == Ch(']') then [] else ElementTrees(s, f, j, 0))
    else
      LeafFits(s, f, i);
      LeafTree(Leaf(s, f, i).events)
  }

  /** A string is shorter than its text. */
  lemma {:induction false} StringFits(s: Bytes, f: Flags, i: nat)
    requires i <= |s| && StringRest(s, f, i).Good?
    ensures |StringRest(s, f, i).value| < StringRest(s, f, i).next - i
    decreases |s| - i
  {
    hide StringPiece;
    if s[i] != Ch('"') {
      PieceFits(s, f, i);
      StringFits(s, f, StringPiece(s, f, i).next);
    }
  }

  lemma PieceFits(s: Bytes, f: Flags, i: nat)
    requires i < |s| && s[i] != Ch('"') && StringPiece(s, f, i).Good?
    ensures |StringPiece(s, f, i).value| <= StringPiece(s, f, i).next - i
  {
    hide Hex4, Validate, Decode;
    ValidateLikeDecode(s, i);
    DecodeAdvances(s, i);
  }

  lemma LeafFits(s: Bytes, f: Flags, i: nat)
    requires i <= |s| && Leaf(s, f, i).Done? && Peek(s, i) != Ch('{') && Peek(s, i) != Ch('[')
    ensures |s| - i < WIDTH ==> BriefTree(LeafTree(Leaf(s, f, i).events))
  {
    hide LexInteger, StringRest;
    if Peek(s, i) == Ch('"') {
      StringFits(s, f, i + 1);
      assert [] + [JString(StringRest(s, f, i + 1).value)] == [JString(StringRest(s, f, i + 1).value)];
    }
  }

  function ElementTrees(s: Bytes, f: Flags, i: nat, count: nat): (es: seq<JValue>)
    requires i <= |s| && Elements(s, f, i, count).Done?
    ensures |es| <= |s| - i && (|s| - i < WIDTH ==> forall e <- es :: Narrow(e))
    decreases |s| - i, 2
  {
    [TreeAt(s, f, i)] + ElementsAfter(s, f, Value(s, f, i).next, Inc(count))
  }

  function ElementsAfter(s: Bytes, f: Flags, i: nat, count: nat): (es: seq<JValue>)
    requires i <= |s| && AfterElement(s, f, i, count).Done?
    ensures |es| <= |s| - i && (|s| - i < WIDTH ==> forall e <- es :: Narrow(e))
    decreases |s| - i, 3
  {
    var j := Skip(s, f, i).value;
    if Peek(s, j) == Ch(']') then []
    else
      assert ElementAfterComma(s, f, j + 1, count).Done?;
      var k := Skip(s, f, j + 1).value;
      if f.trailingCommas && Peek(s, k) == Ch(']') then [] else ElementTrees(s, f, k, count)
  }

  /** Where the value of a member starts, after its name. */
  function ValueAt(s: Bytes, f: Flags, i: nat): (at: nat)
    requires i <= |s|
    ensures i <= at
  {
    match Skip(s, f, i)
    case None => i
    case Some(j) => if j == |s| || Skip(s, f, j + 1).None? then i else Skip(s, f, j + 1).value
  }

  /** A member after its name: its value, and what follows it. */
  lemma KeyParts(s: Bytes, f: Flags, i: nat, count: nat)
    requires i <= |s| && AfterKey(s, f, i, count).Done?
    ensures var at := ValueAt(s, f, i);
            && i < at <= |s| && Value(s, f, at).Done?
            && AfterMember(s, f, Value(s, f, at).next, Inc(count)).Done?
            && AfterKey(s, f, i, count).events
               == Value(s, f, at).events + AfterMember(s, f, Value(s, f, at).next, Inc(count)).events
  {
    hide Leaf, StringRest, AfterMember, Skip;
    var j := Skip(s, f, i).value;
    assert AfterKey(s, f, i, count) == AfterColon(s, f, j + 1, count);
  }

  function MemberTrees(s: Bytes, f: Flags, i: nat, count: nat): (ms: seq<Member>)
    requires i <= |s| && Members(s, f, i, count).Done?
    ensures |ms| <= |s| - i && (|s| - i < WIDTH ==> forall m <- ms :: Brief(m.name) && Narrow(m.value))
    decreases |s| - i, 2
  {
    var key := StringRest(s, f, i + 1);
    KeyParts(s, f, key.next, count);
    var at := ValueAt(s, f, key.next);
    StringFits(s, f, i + 1);
    [Member(key.value, TreeAt(s, f, at))] + MembersAfter(s, f, Value(s, f, at).next, Inc(count))
  }

  function MembersAfter(s: Bytes, f: Flags, i: nat, count: nat): (ms: seq<Member>)
    requires i <= |s| && AfterMember(s, f, i, count).Done?
    ensures |ms| <= |s| - i && (|s| - i < WIDTH ==> forall m <- ms :: Brief(m.name) && Narrow(m.value))
    decreases |s| - i, 3
  {
    var j := Skip(s, f, i).value;
    if Peek(s, j) == Ch('}') then []
    else
      assert MemberAfterComma(s, f, j + 1, count).Done?;
      var k := Skip(s, f, j + 1).value;
      if f.trailingCommas && Peek(s, k) == Ch('}') then [] else MemberTrees(s, f, k, count)
  }

  // ---- What is left over ----

  /** The values that a tree leaves on the stack beside itself: each container's count is
      told modulo 2^32, and an object pops two values for each member. */
  function Extra(v: JValue): nat
    decreases v, 1
  {
    match v
    case JArray(es) => ExtraAll(es) + |es| / WIDTH * WIDTH
    case JObject(ms) => ExtraMembers(ms) + 2 * (|ms| / WIDTH * WIDTH)
    case _ => 0
  }

  function ExtraAll(es: seq<JValue>): nat
    decreases es, 0
  {
    if es == [] then 0 else Extra(es[0]) + ExtraAll(es[1..])
  }

  function ExtraMembers(ms: seq<Member>): nat
    decreases ms, 0
  {
    if ms == [] then 0 else Extra(ms[0].value) + ExtraMembers(ms[1..])
  }

  lemma {:induction false} ExtraIffWide(v: JValue)
    ensures Extra(v) == 0 <==> Slim(v)
    decreases v, 1
  {
    match v
    case JArray(es) => ExtraIffWideAll(es);
    case JObject(ms) => ExtraIffWideMembers(ms);
    case _ =>
  }

  lemma {:induction false} ExtraIffWideAll(es: seq<JValue>)
    ensures ExtraAll(es) == 0 <==> AllSlim(es)
    decreases es, 0
  {
    if es != [] {
      ExtraIffWide(es[0]);
      ExtraIffWideAll(es[1..]);
      assert es == [es[0]] + es[1..];
    }
  }

  lemma {:induction false} ExtraIffWideMembers(ms: seq<Member>)
    ensures ExtraMembers(ms) == 0 <==> MembersSlim(ms)
    decreases ms, 0
  {
    if ms != [] {
      ExtraIffWide(ms[0].value);
      ExtraIffWideMembers(ms[1..]);
      assert ms == [ms[0]] + ms[1..];
    }
  }

  // ---- What the strings become ----

  /** What the handler is handed for a string; nothing if the pointer is past it. */
  function CutString(str: Bytes): Bytes
  {
    if PopLength(str) == 0 then [] else str[|Kept(str)|..]
  }

  /** The tree with all strings and names as they are handed over. */
  function Cut(v: JValue): JValue
    decreases v, 1
  {
    match v
    case JString(str) => JString(CutString(str))
    case JArray(es) => JArray(CutAll(es))
    case JObject(ms) => JObject(CutMembers(ms))
    case _ => v
  }

  function CutAll(es: seq<JValue>): (r: seq<JValue>)
    ensures |r| == |es|
    decreases es, 0
  {
    if es == [] then [] else [Cut(es[0])] + CutAll(es[1..])
  }

  function CutMembers(ms: seq<Member>): (r: seq<Member>)
    ensures |r| == |ms|
    decreases ms, 0
  {
    if ms == [] then [] else [Member(CutString(ms[0].name), Cut(ms[0].value))] + CutMembers(ms[1..])
  }

  /** No pointer to a string or to a name is past it. */
  predicate Sound(v: JValue)
  {
    match v
    case JString(str) => PopLength(str) != 0
    case JArray(es) => AllSound(es)
    case JObject(ms) => MembersSound(ms)
    case _ => true
  }

  predicate AllSound(es: seq<JValue>) { forall e <- es :: Sound(e) }

  predicate MembersSound(ms: seq<Member>) { forall m <- ms :: PopLength(m.name) != 0 && Sound(m.value) }

  lemma CutStringIff(str: Bytes)
    ensures CutString(str) == str <==> Brief(str)
    ensures Brief(str) ==> PopLength(str) != 0
  {
  }

  lemma {:induction false} CutIff(v: JValue)
    ensures Cut(v) == v <==> BriefTree(v)
    ensures BriefTree(v) ==> Sound(v)
    decreases v, 1
  {
    hide CutString, PopLength, Brief;
    match v
    case JString(str) => CutStringIff(str);
    case JArray(es) => CutAllIff(es);
    case JObject(ms) => CutMembersIff(ms);
    case _ =>
  }

  lemma {:induction false} CutAllIff(es: seq<JValue>)
    ensures CutAll(es) == es <==> AllBriefTrees(es)
    ensures AllBriefTrees(es) ==> AllSound(es)
    decreases es, 0
  {
    hide Cut, BriefTree;
    if es != [] {
      CutIff(es[0]);
      CutAllIff(es[1..]);
      assert es == [es[0]] + es[1..];
      assert CutAll(es)[0] == Cut(es[0]) && CutAll(es)[1..] == CutAll(es[1..]);
    }
  }

  lemma {:induction false} CutMembersIff(ms: seq<Member>)
    ensures CutMembers(ms) == ms <==> MembersBrief(ms)
    ensures MembersBrief(ms) ==> MembersSound(ms)
    decreases ms, 0
  {
    hide Cut, BriefTree, CutString, PopLength, Brief;
    if ms != [] {
      CutStringIff(ms[0].name);
      CutIff(ms[0].value);
      CutMembersIff(ms[1..]);
      assert ms == [ms[0]] + ms[1..];
      assert CutMembers(ms)[0] == Member(CutString(ms[0].name), Cut(ms[0].value));
      assert CutMembers(ms)[1..] == CutMembers(ms[1..]);
    }
  }

  // ---- The handler on an accepted text ----

  /** The outcome of events that stand for a tree or for a part of one: how many values there
      are on the stack, and which, if every container is told its true count. */
  predicate Built(r: Option<seq<JValue>>, sound: bool, size: int, slim: bool, stack: seq<JValue>)
  {
    if sound then r.Some? && |r.value| == size && (slim ==> r.value == stack) else r.None?
  }

  lemma LeafBuilds(s: Bytes, f: Flags, i: nat, stack: seq<JValue>)
    requires i <= |s| && Leaf(s, f, i).Done?
    ensures var t := LeafTree(Leaf(s, f, i).events);
            Built(Build(stack, Told(Leaf(s, f, i).events)), Sound(t), |stack| + 1, true, stack + [Cut(t)])
  {
    hide Leaf, Told, Build, Built, LeafTree;
    LeafEvent(s, f, i);
    var e := Leaf(s, f, i).events[0];
    ToldOne(e);
    BuildOne(stack, Handed(e));
    EventBuilds(e, stack);
  }

  /** An event that pushes one value, which is no container. */
  predicate ScalarEvent(e: Event)
  {
    && Handle([], e).Some?
    && !(e.KeyEvent? || e.StartObject? || e.StartArray? || e.EndObject? || e.EndArray? || e.StrayEvent?)
  }

  lemma LeafEvent(s: Bytes, f: Flags, i: nat)
    requires i <= |s| && Leaf(s, f, i).Done?
    ensures |Leaf(s, f, i).events| == 1 && Leaf(s, f, i).events == [Leaf(s, f, i).events[0]]
    ensures ScalarEvent(Leaf(s, f, i).events[0])
  {
    hide StringRest, LexInteger, Exponent, SlowFraction, FastFraction, FromInt, FromUint, FromInt64, FromUint64;
  }

  lemma EventBuilds(e: Event, stack: seq<JValue>)
    requires ScalarEvent(e)
    ensures var t := LeafTree([e]); Built(Handle(stack, Handed(e)), Sound(t), |stack| + 1, true, stack + [Cut(t)])
  {
    hide FromInt, FromUint, FromInt64, FromUint64, Kept, PopLength;
  }

  /** The count that the reader keeps is the true one modulo 2^32. */
  lemma CountWraps(n: nat)
    ensures Inc(n % WIDTH) == (n + 1) % WIDTH && n - n % WIDTH == n / WIDTH * WIDTH
  {
  }

  /** The top of the stack: an open array with these elements, or an open object with these
      members. */
  predicate ArrayStack(stack: seq<JValue>, base: seq<JValue>, es: seq<JValue>)
  {
    stack == base + [JArray([])] + es
  }

  predicate ObjectStack(stack: seq<JValue>, base: seq<JValue>, ms: seq<Member>)
  {
    stack == base + [JObject([])] + Flat(ms)
  }

  lemma EndSizes(stack: seq<JValue>, k: nat)
    ensures k < |stack| ==> Handle(stack, EndArray(k)).Some? && |Handle(stack, EndArray(k)).value| == |stack| - k
    ensures 2 * k < |stack| ==> Handle(stack, EndObject(k)).Some? && |Handle(stack, EndObject(k)).value| == |stack| - 2 * k
  {
    hide Pairs;
  }

  lemma ArrayEnds(stack: seq<JValue>, k: nat, base: seq<JValue>, es: seq<JValue>)
    requires k < |stack|
    ensures Built(Build(stack, Told([EndArray(k)])), true, |stack| - k,
                  ArrayStack(stack, base, es) && |es| == k, base + [JArray(es)])
  {
    hide Told, Build, Handle;
    EndSizes(stack, k);
    ToldOne(EndArray(k));
    BuildOne(stack, EndArray(k));
    if ArrayStack(stack, base, es) && |es| == k {
      var v := CloseArray(base, es);
    }
  }

  lemma ObjectEnds(stack: seq<JValue>, k: nat, base: seq<JValue>, ms: seq<Member>)
    requires 2 * k < |stack|
    ensures Built(Build(stack, Told([EndObject(k)])), true, |stack| - 2 * k,
                  ObjectStack(stack, base, ms) && |ms| == k, base + [JObject(ms)])
  {
    hide Build, Flat, Pairs, Told, Handle;
    EndSizes(stack, k);
    ToldOne(EndObject(k));
    BuildOne(stack, EndObject(k));
    if ObjectStack(stack, base, ms) && |ms| == k {
      PairsOfFlat(ms);
      var v := CloseObject(base, Flat(ms), k);
    }
  }

  /** The end of an array of `n` elements: as many values as told go into the array. */
  lemma EndOfArray(stack: seq<JValue>, n: nat, base: seq<JValue>, es: seq<JValue>)
    requires n < |stack|
    ensures Built(Build(stack, Told([EndArray(n % WIDTH)])), true, |stack| - n % WIDTH,
                  ArrayStack(stack, base, es) && |es| == n < WIDTH, base + [JArray(es)])
  {
    hide Told, Build, ArrayStack;
    ArrayEnds(stack, n % WIDTH, base, es);
  }

  lemma EndOfObject(stack: seq<JValue>, n: nat, base: seq<JValue>, ms: seq<Member>)
    requires 2 * n < |stack|
    ensures Built(Build(stack, Told([EndObject(n % WIDTH)])), true, |stack| - 2 * (n % WIDTH),
                  ObjectStack(stack, base, ms) && |ms| == n < WIDTH, base + [JObject(ms)])
  {
    hide Told, Build, ObjectStack;
    ObjectEnds(stack, n % WIDTH, base, ms);
  }

  /** The handler on two runs of events. */
  lemma TwoRuns(stack: seq<JValue>, a: seq<Event>, b: seq<Event>)
    ensures Build(stack, Told(a + b)) == match Build(stack, Told(a))
                                         case None => None
                                         case Some(next) => Build(next, Told(b))
  {
    hide Build, Told;
    ToldAppend(a, b);
    BuildAppend(stack, Told(a), Told(b));
  }

  /** Reading one value: its tree, cut, and what is left over. */
  lemma {:induction false} ValueBuilds(s: Bytes, f: Flags, i: nat, stack: seq<JValue>)
    requires i <= |s| && Value(s, f, i).Done?
    ensures var t := TreeAt(s, f, i);
            Built(Build(stack, Told(Value(s, f, i).events)), Sound(t), |stack| + 1 + Extra(t), Slim(t), stack + [Cut(t)])
    decreases |s| - i, 1
  {
    hide Leaf, Build, Skip, Elements, Members, ArrayBody, ObjectBody, ElementTrees, MemberTrees, Built, Cut, Sound;
    if Peek(s, i) == Ch('[') {
      ArrayBuilds(s, f, i, stack);
    } else if Peek(s, i) == Ch('{') {
      ObjectBuilds(s, f, i, stack);
    } else {
      LeafBuilds(s, f, i, stack);
      var t := TreeAt(s, f, i);
      BuiltSlim(Build(stack, Told(Leaf(s, f, i).events)), Sound(t), |stack| + 1, true, stack + [Cut(t)]);
    }
  }

  lemma BuiltSlim(r: Option<seq<JValue>>, sound: bool, size: int, slim: bool, stack: seq<JValue>)
    requires Built(r, sound, size, true, stack)
    ensures Built(r, sound, size, slim, stack)
  {
  }

  lemma {:induction false} ArrayBuilds(s: Bytes, f: Flags, i: nat, stack: seq<JValue>)
    requires i < |s| && s[i] == Ch('[') && Value(s, f, i).Done?
    ensures var t := TreeAt(s, f, i);
            Built(Build(stack, Told(Value(s, f, i).events)), Sound(t), |stack| + 1 + Extra(t), Slim(t), stack + [Cut(t)])
    decreases |s| - i, 0
  {
    hide Leaf, Build, Skip, Elements, ElementTrees, Told, CutAll, AllSound, AllSlim;
    var open, body := stack + [JArray([])], ArrayBody(s, f, i + 1).events;
    TwoRuns(stack, [StartArray], body);
    ToldOne(StartArray);
    BuildOne(stack, StartArray);
    assert ArrayStack(open, stack, []);
    var j := Skip(s, f, i + 1).value;
    if Peek(s, j) == Ch(']') {
      EndOfArray(open, 0, stack, []);
      NoElements();
    } else {
      var es := ElementTrees(s, f, j, 0);
      ElementsBuild(s, f, j, 0, open, stack, []);
      assert [] + CutAll(es) == CutAll(es);
      CountWraps(|es|);
    }
  }

  lemma NoElements()
    ensures CutAll([]) == [] && AllSound([]) && AllSlim([])
    ensures CutMembers([]) == [] && MembersSound([]) && MembersSlim([])
  {
  }

  lemma {:induction false} ObjectBuilds(s: Bytes, f: Flags, i: nat, stack: seq<JValue>)
    requires i < |s| && s[i] == Ch('{') && Value(s, f, i).Done?
    ensures var t := TreeAt(s, f, i);
            Built(Build(stack, Told(Value(s, f, i).events)), Sound(t), |stack| + 1 + Extra(t), Slim(t), stack + [Cut(t)])
    decreases |s| - i, 0
  {
    hide Leaf, Build, Skip, Members, MemberTrees, Told, CutMembers, MembersSound, MembersSlim;
    var open, body := stack + [JObject([])], ObjectBody(s, f, i + 1).events;
    TwoRuns(stack, [StartObject], body);
    ToldOne(StartObject);
    BuildOne(stack, StartObject);
    assert ObjectStack(open, stack, []);
    var j := Skip(s, f, i + 1).value;
    if Peek(s, j) == Ch('}') {
      EndOfObject(open, 0, stack, []);
      NoElements();
    } else {
      var ms := MemberTrees(s, f, j, 0);
      MembersBuild(s, f, j, 0, open, stack, []);
      assert [] + CutMembers(ms) == CutMembers(ms);
      CountWraps(|ms|);
    }
  }

  /** A list of trees from its first. */
  lemma OneMore(t: JValue, rest: seq<JValue>)
    ensures var ts := [t] + rest;
            && (AllSound(ts) <==> Sound(t) && AllSound(rest)) && (AllSlim(ts) <==> Slim(t) && AllSlim(rest))
            && ExtraAll(ts) == Extra(t) + ExtraAll(rest) && CutAll(ts) == [Cut(t)] + CutAll(rest)
  {
    hide Sound, Slim, Extra, Cut;
    assert ([t] + rest)[1..] == rest && t in [t] + rest && forall e <- rest :: e in [t] + rest;
  }

  /** The rest of an array after `n` elements.  The second part is for a stack that holds
      exactly these elements. */
  lemma {:induction false} ElementsBuild(s: Bytes, f: Flags, i: nat, n: nat, stack: seq<JValue>,
                                         base: seq<JValue>, es: seq<JValue>)
    requires i <= |s| && n < |stack| && Elements(s, f, i, n % WIDTH).Done?
    ensures var ts := ElementTrees(s, f, i, n % WIDTH);
            Built(Build(stack, Told(Elements(s, f, i, n % WIDTH).events)), AllSound(ts),
                  |stack| + |ts| + ExtraAll(ts) - (n + |ts|) % WIDTH,
                  ArrayStack(stack, base, es) && |es| == n && n + |ts| < WIDTH && AllSlim(ts),
                  base + [JArray(es + CutAll(ts))])
    decreases |s| - i, 2
  {
    hide Leaf, Build, Value, AfterElement, TreeAt, ElementsAfter, ArrayStack, Slim, Extra, Told, Cut, Sound;
    hide CutAll, AllSound, AllSlim, ExtraAll;
    var v, t := Value(s, f, i), TreeAt(s, f, i);
    var rest := ElementsAfter(s, f, v.next, Inc(n % WIDTH));
    CountWraps(n);
    ValueBuilds(s, f, i, stack);
    TwoRuns(stack, v.events, AfterElement(s, f, v.next, (n + 1) % WIDTH).events);
    OneMore(t, rest);
    if Sound(t) {
      ElementTailBuilds(s, f, v.next, n + 1, Build(stack, Told(v.events)).value, base, es + [Cut(t)]);
      ElementAdded(stack, base, es, Cut(t));
      Associates(es, [Cut(t)], CutAll(rest));
    }
  }

  lemma ElementAdded(stack: seq<JValue>, base: seq<JValue>, es: seq<JValue>, e: JValue)
    ensures ArrayStack(stack, base, es) ==> ArrayStack(stack + [e], base, es + [e])
  {
  }

  lemma {:induction false} ElementTailBuilds(s: Bytes, f: Flags, i: nat, n: nat, stack: seq<JValue>,
                                             base: seq<JValue>, es: seq<JValue>)
    requires i <= |s| && n < |stack| && AfterElement(s, f, i, n % WIDTH).Done?
    ensures var ts := ElementsAfter(s, f, i, n % WIDTH);
            Built(Build(stack, Told(AfterElement(s, f, i, n % WIDTH).events)), AllSound(ts),
                  |stack| + |ts| + ExtraAll(ts) - (n + |ts|) % WIDTH,
                  ArrayStack(stack, base, es) && |es| == n && n + |ts| < WIDTH && AllSlim(ts),
                  base + [JArray(es + CutAll(ts))])
    decreases |s| - i, 3
  {
    hide Leaf, Build, Skip, Elements, ElementTrees, Told, CutAll, AllSound, AllSlim, ArrayStack;
    var j := Skip(s, f, i).value;
    EndOfArray(stack, n, base, es);
    NoElements();
    assert es + [] == es;
    if Peek(s, j) != Ch(']') {
      assert AfterElement(s, f, i, n % WIDTH) == ElementAfterComma(s, f, j + 1, n % WIDTH);
      var k := Skip(s, f, j + 1).value;
      if !(f.trailingCommas && Peek(s, k) == Ch(']')) {
        ElementsBuild(s, f, k, n, stack, base, es);
      }
    }
  }

  /** A member with its name and value as they are handed over. */
  function CutMember(m: Member): Member { Member(CutString(m.name), Cut(m.value)) }

  predicate SoundMember(m: Member) { PopLength(m.name) != 0 && Sound(m.value) }

  lemma OneMoreMember(m: Member, rest: seq<Member>)
    ensures var ms := [m] + rest;
            && (MembersSound(ms) <==> SoundMember(m) && MembersSound(rest))
            && (MembersSlim(ms) <==> Slim(m.value) && MembersSlim(rest))
            && ExtraMembers(ms) == Extra(m.value) + ExtraMembers(rest)
            && CutMembers(ms) == [CutMember(m)] + CutMembers(rest)
  {
    hide Sound, Slim, Extra, Cut, CutString, PopLength;
    assert ([m] + rest)[1..] == rest && m in [m] + rest && forall e <- rest :: e in [m] + rest;
  }

  /** The rest of an object after `n` members. */
  lemma {:induction false} MembersBuild(s: Bytes, f: Flags, i: nat, n: nat, stack: seq<JValue>,
                                        base: seq<JValue>, ms: seq<Member>)
    requires i <= |s| && 2 * n < |stack| && Members(s, f, i, n % WIDTH).Done?
    ensures var ts := MemberTrees(s, f, i, n % WIDTH);
            Built(Build(stack, Told(Members(s, f, i, n % WIDTH).events)), MembersSound(ts),
                  |stack| + 2 * |ts| + ExtraMembers(ts) - 2 * ((n + |ts|) % WIDTH),
                  ObjectStack(stack, base, ms) && |ms| == n && n + |ts| < WIDTH && MembersSlim(ts),
                  base + [JObject(ms + CutMembers(ts))])
    decreases |s| - i, 2
  {
    hide Leaf, Build, Value, AfterMember, AfterKey, StringRest, Flat, TreeAt, MembersAfter, ObjectStack, Slim, Extra;
    hide Told, CutMember, SoundMember, CutMembers, MembersSound, MembersSlim, ExtraMembers;
    var key := StringRest(s, f, i + 1);
    KeyParts(s, f, key.next, n % WIDTH);
    CountWraps(n);
    var at := ValueAt(s, f, key.next);
    var v, m := Value(s, f, at), Member(key.value, TreeAt(s, f, at));
    var rest := MembersAfter(s, f, v.next, Inc(n % WIDTH));
    OneMoreMember(m, rest);
    var next := MemberBuilds(s, f, at, stack, m.name, AfterMember(s, f, v.next, (n + 1) % WIDTH).events, base, ms);
    if SoundMember(m) {
      MemberTailBuilds(s, f, v.next, n + 1, next, base, ms + [CutMember(m)]);
      Associates(ms, [CutMember(m)], CutMembers(rest));
    }
  }

  /** A name and its value, before the events `last`. */
  lemma {:induction false} MemberBuilds(s: Bytes, f: Flags, at: nat, stack: seq<JValue>, name: Bytes, last: seq<Event>,
                                        base: seq<JValue>, ms: seq<Member>)
    returns (next: seq<JValue>)
    requires at <= |s| && Value(s, f, at).Done?
    ensures var m := Member(name, TreeAt(s, f, at));
            var r := Build(stack, Told([KeyEvent(name)] + (Value(s, f, at).events + last)));
            && (!SoundMember(m) ==> r.None?)
            && (SoundMember(m) ==> r == Build(next, Told(last)) && |next| == |stack| + 2 + Extra(m.value))
            && (SoundMember(m) && ObjectStack(stack, base, ms) && Slim(m.value) ==>
                  ObjectStack(next, base, ms + [CutMember(m)]))
    decreases |s| - at, 2
  {
    hide Leaf, Build, Value, TreeAt, ObjectStack, Slim, Extra, Told, Sound, Cut, Kept, PopLength;
    var v, t := Value(s, f, at).events, TreeAt(s, f, at);
    var keyed := stack + [JString(CutString(name))];
    ToldOne(KeyEvent(name));
    BuildOne(stack, Handed(KeyEvent(name)));
    TwoRuns(stack, [KeyEvent(name)], v + last);
    ValueBuilds(s, f, at, keyed);
    TwoRuns(keyed, v, last);
    next := if Build(keyed, Told(v)).Some? then Build(keyed, Told(v)).value else [];
    MemberAdded(stack, base, ms, CutMember(Member(name, t)));
  }

  lemma MemberAdded(stack: seq<JValue>, base: seq<JValue>, ms: seq<Member>, m: Member)
    ensures ObjectStack(stack, base, ms) ==> ObjectStack(stack + [JString(m.name)] + [m.value], base, ms + [m])
  {
    assert (ms + [m])[..|ms|] == ms;
  }

  lemma {:induction false} MemberTailBuilds(s: Bytes, f: Flags, i: nat, n: nat, stack: seq<JValue>,
                                            base: seq<JValue>, ms: seq<Member>)
    requires i <= |s| && 2 * n < |stack| && AfterMember(s, f, i, n % WIDTH).Done?
    ensures var ts := MembersAfter(s, f, i, n % WIDTH);
            Built(Build(stack, Told(AfterMember(s, f, i, n % WIDTH).events)), MembersSound(ts),
                  |stack| + 2 * |ts| + ExtraMembers(ts) - 2 * ((n + |ts|) % WIDTH),
                  ObjectStack(stack, base, ms) && |ms| == n && n + |ts| < WIDTH && MembersSlim(ts),
                  base + [JObject(ms + CutMembers(ts))])
    decreases |s| - i, 3
  {
    hide Leaf, Build, Skip, Members, MemberTrees, Flat, Told, CutMembers, MembersSound, MembersSlim, ObjectStack;
    var j := Skip(s, f, i).value;
    EndOfObject(stack, n, base, ms);
    NoElements();
    assert ms + [] == ms;
    if Peek(s, j) != Ch('}') {
      assert AfterMember(s, f, i, n % WIDTH) == MemberAfterComma(s, f, j + 1, n % WIDTH);
      var k := Skip(s, f, j + 1).value;
      if !(f.trailingCommas && Peek(s, k) == Ch('}')) {
        MembersBuild(s, f, k, n, stack, base, ms);
      }
    }
  }

  // ---- Exactly one value ----

  /** The tree that an accepted text denotes. */
  function TreeOf(s: Bytes, f: Flags): JValue
    requires ParseEvents(s, f).Accepted?
  {
    TreeAt(s, f, Skip(s, f, 0).value)
  }

  /** For every accepted text of any length: the document is the tree of the text, and the only
      value on the stack, exactly if no container has 2^32 or more members and no string or name
      2^32 - 1 or more bytes.  A text of less than 4 GiB has none.  Otherwise the stack never
      underflows, `Extra` values are left beside the tree, and strings are cut; only a pointer
      past its string leads out of what the model describes. */
  lemma AcceptedBuildsOne(s: Bytes, f: Flags)
    requires ParseEvents(s, f).Accepted?
    ensures var r, t := Build([], Told(ParseEvents(s, f).events)), TreeOf(s, f);
            && (r == Some([t]) <==> Narrow(t))
            && (|s| < WIDTH ==> Narrow(t))
            && (r.Some? <==> Sound(t))
            && (r.Some? ==> |r.value| == 1 + Extra(t))
            && (r.Some? && Slim(t) ==> r == Some([Cut(t)]))
  {
    hide Build, Value, TreeAt, Extra, Slim, BriefTree, Sound, Cut, Skip, Told;
    var t := TreeOf(s, f);
    ValueBuilds(s, f, Skip(s, f, 0).value, []);
    ExtraIffWide(t);
    CutIff(t);
    assert [] + [Cut(t)] == [Cut(t)] && [Cut(t)][0] == Cut(t) && [t][0] == t;
  }

  // ---- Texts that are too wide ----

  /** `n` nulls and the end of the array. */
  function Nulls(n: nat): Bytes
  {
    if n <= 1 then NULL + [Ch(']')] else NULL + ([Ch(',')] + Nulls(n - 1))
  }

  lemma NullRead(s: Bytes, f: Flags, i: nat, rest: Bytes)
    requires Matches(s, i, NULL + rest) && rest != []
    ensures i + 4 < |s| && Value(s, f, i) == Done(i + 4, [NullEvent]) && TreeAt(s, f, i) == JNull
    ensures Skip(s, f, i) == Some(i) && Peek(s, i) == Ch('n') && Matches(s, i + 4, rest) && Peek(s, i + 4) == rest[0]
  {
    hide LexNumber, StringRest, Skip;
    MatchesSplit(s, i, NULL, rest);
    First(s, i, NULL);
    First(s, i + 4, rest);
    assert Leaf(s, f, i) == Done(i + 4, [NullEvent]);
    NoSkip(s, f, i);
    assert [] + [JNull] == [JNull];
  }

  lemma {:induction false} NullsRead(s: Bytes, f: Flags, i: nat, n: nat, count: nat)
    requires n > 0 && Matches(s, i, Nulls(n))
    ensures i < |s| && Peek(s, i) == Ch('n') && Skip(s, f, i) == Some(i)
    ensures Elements(s, f, i, count).Done? && Elements(s, f, i, count).next == i + |Nulls(n)|
    ensures var es := ElementTrees(s, f, i, count); |es| == n && forall e <- es :: e == JNull
    decreases n
  {
    hide Value, Skip, Matches, TreeAt;
    var rest := if n == 1 then [Ch(']')] else [Ch(',')] + Nulls(n - 1);
    NullRead(s, f, i, rest);
    NoSkip(s, f, i + 4);
    if n > 1 {
      MatchesSplit(s, i + 4, [Ch(',')], Nulls(n - 1));
      NullsRead(s, f, i + 5, n - 1, Inc(count));
      assert AfterElement(s, f, i + 4, Inc(count)) == ElementAfterComma(s, f, i + 5, Inc(count))
          == Elements(s, f, i + 5, Inc(count));
    } else {
      assert ElementsAfter(s, f, i + 4, Inc(count)) == [];
    }
  }

  /** An array of `n` nulls is accepted whatever `n` is, and leaves `n / 2^32 * 2^32` values
      beside the array on the stack: from 2^32 on, the document is not the tree of the text. */
  lemma WideText(n: nat, f: Flags)
    requires n > 0
    ensures var s := [Ch('[')] + Nulls(n);
            && ParseEvents(s, f).Accepted?
            && Build([], Told(ParseEvents(s, f).events)).Some?
            && |Build([], Told(ParseEvents(s, f).events)).value| == 1 + n / WIDTH * WIDTH
  {
    hide Skip, Elements, ElementTrees, Matches, Build, Narrow, Nulls, Told, Cut, Slim;
    var s := [Ch('[')] + Nulls(n);
    Whole(s);
    MatchesSplit(s, 0, [Ch('[')], Nulls(n));
    NoSkip(s, f, 0);
    NullsRead(s, f, 1, n, 0);
    NoSkip(s, f, |s|);
    assert ArrayBody(s, f, 1) == Elements(s, f, 1, 0);
    AcceptedBuildsOne(s, f);
    var es := ElementTrees(s, f, 1, 0);
    assert TreeOf(s, f) == JArray(es);
    AllNulls(es);
    ExtraIffWideAll(es);
  }

  lemma AllNulls(es: seq<JValue>)
    requires forall e <- es :: e == JNull
    ensures AllSlim(es) && AllSound(es)
  {
  }
}
