/**
 JSON trees: number flags, the events a tree sends to a handler, and the handler that builds
 a tree on a stack.
 */
module JsonDocument {
  import opened ByteStrings
  import opened JsonLexer

  // ---- Numbers and their type flags ----

  datatype NumberFlag = IntFlag | UintFlag | Int64Flag | Uint64Flag

  datatype Number = Number(value: int, flags: set<NumberFlag>)

  predicate InRange(flag: NumberFlag, v: int)
  {
    match flag
    case IntFlag => -0x8000_0000 <= v < 0x8000_0000
    case UintFlag => 0 <= v < 0x1_0000_0000
    case Int64Flag => -0x8000_0000_0000_0000 <= v < 0x8000_0000_0000_0000
    case Uint64Flag => 0 <= v < 0x1_0000_0000_0000_0000
  }

  /** The flags a number should carry: those of the ranges that contain it. */
  function RangeFlags(v: int): set<NumberFlag>
  {
    set flag | flag in {IntFlag, UintFlag, Int64Flag, Uint64Flag} && InRange(flag, v)
  }

  /** No bit of `u` at or above the power of two `bit` is set. */
  predicate NoBitsFrom(u: nat, bit: nat)
    requires bit > 0
  {
    u / bit == 0
  }

  function FromInt(i: int): Number
    requires InRange(IntFlag, i)
  {
    Number(i, {IntFlag, Int64Flag} + if i >= 0 then {UintFlag, Uint64Flag} else {})
  }

  function FromUint(u: int): Number
    requires InRange(UintFlag, u)
  {
    Number(u, {UintFlag, Uint64Flag, Int64Flag} + if NoBitsFrom(u, 0x8000_0000) then {IntFlag, Int64Flag} else {})
  }

  function FromInt64(i: int): Number
    requires InRange(Int64Flag, i)
  {
    var flags :=
      if i >= 0 then
        {Uint64Flag}
        + (if NoBitsFrom(i, 0x1_0000_0000) then {UintFlag} else {})
        + (if NoBitsFrom(i, 0x8000_0000) then {IntFlag} else {})
      else if i >= -0x8000_0000 then {IntFlag}
      else {};
    Number(i, {Int64Flag} + flags)
  }

  function FromUint64(u: int): Number
    requires InRange(Uint64Flag, u)
  {
    Number(u, {Uint64Flag}
              + (if NoBitsFrom(u, 0x8000_0000_0000_0000) then {Int64Flag} else {})
              + (if NoBitsFrom(u, 0x1_0000_0000) then {UintFlag} else {})
              + (if NoBitsFrom(u, 0x8000_0000) then {IntFlag} else {}))
  }

  /** Whichever constructor made it, a number carries exactly the flags of its ranges. */
  lemma FlagsAreRanges(v: int)
    ensures InRange(IntFlag, v) ==> FromInt(v) == Number(v, RangeFlags(v))
    ensures InRange(UintFlag, v) ==> FromUint(v) == Number(v, RangeFlags(v))
    ensures InRange(Int64Flag, v) ==> FromInt64(v) == Number(v, RangeFlags(v))
    ensures InRange(Uint64Flag, v) ==> FromUint64(v) == Number(v, RangeFlags(v))
  {
    if InRange(IntFlag, v) {
      assert FromInt(v).flags == RangeFlags(v);
    }
    if InRange(UintFlag, v) {
      assert FromUint(v).flags == RangeFlags(v);
    }
    if InRange(Int64Flag, v) {
      assert FromInt64(v).flags == RangeFlags(v);
    }
    if InRange(Uint64Flag, v) {
      assert FromUint64(v).flags == RangeFlags(v);
    }
  }

  // ---- Trees ----

  datatype JValue =
    | JNull
    | JBool(b: bool)
    | JNumber(num: Number)
    | JDouble(minus: bool, significand: nat, exponent: int)
    | JString(str: Bytes)
    | JArray(elements: seq<JValue>)
    | JObject(members: seq<Member>)

  datatype Member = Member(name: Bytes, value: JValue)

  /** A number as the constructors make it. */
  predicate CanonicalNumber(n: Number)
  {
    n.flags == RangeFlags(n.value) && (Int64Flag in n.flags || Uint64Flag in n.flags)
  }

  /** The event a number is sent as: the first of the four types that holds it. */
  function NumberEvent(n: Number): Event
    requires CanonicalNumber(n)
  {
    if IntFlag in n.flags then IntEvent(n.value)
    else if UintFlag in n.flags then UintEvent(n.value)
    else if Int64Flag in n.flags then Int64Event(n.value)
    else Uint64Event(n.value)
  }

  /** No string and no name has 2^32 - 1 or more bytes. */
  predicate BriefTree(v: JValue)
  {
    match v
    case JString(str) => Brief(str)
    case JArray(es) => AllBriefTrees(es)
    case JObject(ms) => MembersBrief(ms)
    case _ => true
  }

  predicate AllBriefTrees(es: seq<JValue>) { forall e <- es :: BriefTree(e) }

  predicate MembersBrief(ms: seq<Member>) { forall m <- ms :: Brief(m.name) && BriefTree(m.value) }

  // ---- Building a tree on a stack ----

  /** `stack_.Pop<Member>(n)`: the last 2n values, read as n names and values. */
  function Pairs(vs: seq<JValue>): seq<Member>
    requires |vs| % 2 == 0
  {
    if vs == [] then []
    else [Member(if vs[0].JString? then vs[0].str else [], vs[1])] + Pairs(vs[2..])
  }

  /** One handler call on the document; None where the source would read below its stack, or
      copy bytes that are not those of a string. */
  function Handle(stack: seq<JValue>, e: Event): Option<seq<JValue>>
  {
    match e
    case NullEvent => Some(stack + [JNull])
    case BoolEvent(b) => Some(stack + [JBool(b)])
    case IntEvent(i) => if InRange(IntFlag, i) then Some(stack + [JNumber(FromInt(i))]) else None
    case UintEvent(u) => if InRange(UintFlag, u) then Some(stack + [JNumber(FromUint(u))]) else None
    case Int64Event(i) => if InRange(Int64Flag, i) then Some(stack + [JNumber(FromInt64(i))]) else None
    case Uint64Event(u) => if InRange(Uint64Flag, u) then Some(stack + [JNumber(FromUint64(u))]) else None
    case DoubleEvent(minus, sig, exp) => Some(stack + [JDouble(minus, sig, exp)])
    case StringEvent(str) => Some(stack + [JString(str)])
    case KeyEvent(str) => Some(stack + [JString(str)])
    case StrayEvent => None
    case StartObject => Some(stack + [JObject([])])
    case StartArray => Some(stack + [JArray([])])
    case EndObject(count) =>
      var top := |stack| - 2 * count - 1;
      if top < 0 then None else Some(stack[..top] + [JObject(Pairs(stack[top + 1..]))])
    case EndArray(count) =>
      var top := |stack| - count - 1;
      if top < 0 then None else Some(stack[..top] + [JArray(stack[top + 1..])])
  }

  function Build(stack: seq<JValue>, events: seq<Event>): Option<seq<JValue>>
    decreases |events|
  {
    if events == [] then Some(stack)
    else
      match Handle(stack, events[0])
      case None => None
      case Some(next) => Build(next, events[1..])
  }

  lemma {:induction false} BuildAppend(stack: seq<JValue>, a: seq<Event>, b: seq<Event>)
    ensures Build(stack, a + b) == match Build(stack, a)
                                   case None => None
                                   case Some(next) => Build(next, b)
    decreases |a|
  {
    if a == [] {
      assert a + b == b;
    } else {
      assert (a + b)[1..] == a[1..] + b;
      var next := Handle(stack, a[0]);
      if next.Some? {
        BuildAppend(next.value, a[1..], b);
      }
    }
  }

  /** An integer literal, whatever its length: its value is exact, it becomes a double exactly
      if it is outside [-2^63, 2^64 - 1], and otherwise it carries the flags of exactly the
      ranges that contain it. */
  lemma IntegerLiteral(s: Bytes, i: nat)
    requires i <= |s| && LexInteger(s, i).Good?
    requires var c := Peek(s, LexInteger(s, i).next); c != Ch('.') && c != Ch('e') && c != Ch('E')
    ensures var n := LexInteger(s, i).value;
            var v := if n.minus then 0 - n.value else n.value;
            var r := LexNumber(s, i);
            && r.Good? && r.next == LexInteger(s, i).next
            && (r.value.DoubleEvent? <==> v < -0x8000_0000_0000_0000 || v > 0xFFFF_FFFF_FFFF_FFFF)
            && (r.value.DoubleEvent? ==> r.value == DoubleEvent(n.minus, n.value, 0))
            && (!r.value.DoubleEvent? ==> Handle([], r.value) == Some([JNumber(Number(v, RangeFlags(v)))]))
  {
    hide LexInteger, FromInt, FromUint, FromInt64, FromUint64, RangeFlags;
    var n := LexInteger(s, i).value;
    var v := if n.minus then 0 - n.value else n.value;
    FlagsAreRanges(v);
    assert [] + [JNumber(Number(v, RangeFlags(v)))] == [JNumber(Number(v, RangeFlags(v)))];
  }

  /** Names and values alternating, as they lie on the builder stack. */
  function Flat(ms: seq<Member>): (r: seq<JValue>)
    ensures |r| == 2 * |ms|
  {
    if ms == [] then []
    else Flat(ms[..|ms| - 1]) + [JString(ms[|ms| - 1].name), ms[|ms| - 1].value]
  }

  lemma {:induction false} PairsAppend(kvs: seq<JValue>, m: Member)
    requires |kvs| % 2 == 0
    ensures Pairs(kvs + [JString(m.name), m.value]) == Pairs(kvs) + [m]
    decreases |kvs|
  {
    var all := kvs + [JString(m.name), m.value];
    if kvs == [] {
      assert all[2..] == [];
    } else {
      PairsAppend(kvs[2..], m);
      assert all[2..] == kvs[2..] + [JString(m.name), m.value];
    }
  }

  lemma {:induction false} PairsOfFlat(ms: seq<Member>)
    ensures Pairs(Flat(ms)) == ms
    decreases |ms|
  {
    if ms != [] {
      var n := |ms| - 1;
      PairsOfFlat(ms[..n]);
      PairsAppend(Flat(ms[..n]), ms[n]);
    }
  }

  lemma BuildOne(stack: seq<JValue>, e: Event)
    ensures Build(stack, [e]) == Handle(stack, e)
  {
    assert [e][1..] == [];
    var next := Handle(stack, e);
    if next.Some? {
      assert Build(next.value, []) == next;
    }
  }

  lemma CloseArray(base: seq<JValue>, es: seq<JValue>) returns (v: JValue)
    ensures Build(base + [JArray([])] + es, [EndArray(|es|)]) == Some(base + [v]) && v == JArray(es)
  {
    var stack := base + [JArray([])] + es;
    BuildOne(stack, EndArray(|es|));
    assert stack[..|base|] == base && stack[|base| + 1..] == es;
    v := JArray(es);
  }

  lemma CloseObject(base: seq<JValue>, kvs: seq<JValue>, count: nat) returns (v: JValue)
    requires |kvs| == 2 * count
    ensures Build(base + [JObject([])] + kvs, [EndObject(count)]) == Some(base + [v]) && v == JObject(Pairs(kvs))
  {
    var stack := base + [JObject([])] + kvs;
    BuildOne(stack, EndObject(count));
    assert stack[..|base|] == base && stack[|base| + 1..] == kvs;
    v := JObject(Pairs(kvs));
  }

  // ---- The handler object ----

  /** GenericDocument as a handler: values are pushed, and the end of a container pops its
      members or elements.  The preconditions say that the counts fit the stack, as they do for
      every accepted text. */
  class Builder {
    var stack: seq<JValue>

    constructor ()
      ensures stack == []
    {
      stack := [];
    }

    /** Every event but the end of a container pushes one value. */
    method Push(v: JValue)
      modifies this
      ensures stack == old(stack) + [v]
    {
      stack := stack + [v];
    }

    method EndObject(memberCount: nat)
      requires 2 * memberCount + 1 <= |stack|
      modifies this
      ensures Handle(old(stack), Event.EndObject(memberCount)) == Some(stack)
    {
      var top := |stack| - 2 * memberCount;
      var members := stack[top..];
      assert stack[..top][..top - 1] == stack[..top - 1];
      stack := stack[..top];
      stack := stack[..|stack| - 1] + [JObject(Pairs(members))];
    }

    method EndArray(elementCount: nat)
      requires elementCount + 1 <= |stack|
      modifies this
      ensures Handle(old(stack), Event.EndArray(elementCount)) == Some(stack)
    {
      var top := |stack| - elementCount;
      var elements := stack[top..];
      assert stack[..top][..top - 1] == stack[..top - 1];
      stack := stack[..top];
      stack := stack[..|stack| - 1] + [JArray(elements)];
    }
  }
}
