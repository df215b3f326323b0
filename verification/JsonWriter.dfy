/**
 The JSON writer: a tree sends events, and the writer prints them as the text of the tree.
 */
module JsonWriter {
  import opened ByteStrings
  import opened JsonLexer
  import opened JsonReader
  import opened JsonDocument

  // ---- Strings and integers ----

  /** The escape table: 0 where the byte is written as it is. */
  function EscapeCode(c: Byte): Byte
  {
    if c == 8 then Ch('b')
    else if c == 9 then Ch('t')
    else if c == 10 then Ch('n')
    else if c == 12 then Ch('f')
    else if c == 13 then Ch('r')
    else if c < 0x20 then Ch('u')
    else if c == Ch('"') || c == Ch('\\') then c
    else 0
  }

  function EscapeByte(c: Byte): Bytes
  {
    var e := EscapeCode(c);
    if e == 0 then [c]
    else if e != Ch('u') then [Ch('\\'), e]
    else [Ch('\\'), e, Ch('0'), Ch('0'), HexChar(c / 16), HexChar(c % 16)]
  }

  function Escaped(str: Bytes): Bytes
  {
    if str == [] then [] else EscapeByte(str[0]) + Escaped(str[1..])
  }

  function Quoted(str: Bytes): Bytes { [Ch('"')] + Escaped(str) + [Ch('"')] }

  /** Control characters without a letter of their own are written with two capital digits. */
  lemma ControlEscape(c: Byte)
    requires c < 0x20 && c !in [0x08, 0x09, 0x0A, 0x0C, 0x0D]
    ensures var digits := [0x30, 0x31, 0x32, 0x33, 0x34, 0x35, 0x36, 0x37, 0x38, 0x39, 0x41, 0x42, 0x43, 0x44, 0x45, 0x46];
            EscapeByte(c) == [0x5C, 0x75, 0x30, 0x30, digits[c / 16], digits[c % 16]]
  {
  }

  /** The bytes that WriteString reserves: 32-bit arithmetic. */
  function Reserve(n: nat): (r: nat)
    ensures r < WIDTH
  {
    (2 + n * 6) % WIDTH
  }

  /** What is written for a string fits what is reserved for it. */
  predicate Fits(str: Bytes) { |Quoted(str)| <= Reserve(|str|) }

  lemma {:induction false} EscapedSize(str: Bytes)
    ensures |str| <= |Escaped(str)| <= 6 * |str|
    ensures (forall c <- str :: c == 0) ==> |Escaped(str)| == 6 * |str|
    decreases |str|
  {
    hide EscapeByte;
    if str != [] {
      EscapeSize(str[0]);
      EscapedSize(str[1..]);
      assert str[0] in str && forall c <- str[1..] :: c in str;
    }
  }

  lemma EscapeSize(c: Byte)
    ensures 1 <= |EscapeByte(c)| <= 6 && (c == 0 ==> |EscapeByte(c)| == 6)
  {
  }

  /** The reserve is enough for every string of `n` bytes exactly if it does not wrap. */
  lemma ReserveIff(n: nat)
    ensures (forall str: Bytes | |str| == n :: Fits(str)) <==> 2 + n * 6 < WIDTH
  {
    hide Escaped;
    if 2 + n * 6 < WIDTH {
      forall str: Bytes | |str| == n
        ensures Fits(str)
      {
        EscapedSize(str);
      }
    } else {
      var zeros: Bytes := seq(n, _ => 0);
      EscapedSize(zeros);
      assert |zeros| == n && !Fits(zeros);
    }
  }

  /** From 715827883 bytes on it may be too small; at that length 4 bytes are reserved, which
      is too small for every string. */
  lemma ReserveWraps(str: Bytes)
    requires |str| == 715827883
    ensures Reserve(|str|) == 4 && !Fits(str) && 2 + (|str| - 1) * 6 < WIDTH
  {
    hide Escaped;
    EscapedSize(str);
  }

  /** Canonical decimal, as the digit printers write it. */
  function Digits(n: nat): Bytes
  {
    if n < 10 then [Ch('0') + n] else Digits(n / 10) + [Ch('0') + n % 10]
  }

  function IntegerText(v: int): Bytes
  {
    if v < 0 then [Ch('-')] + Digits(0 - v) else Digits(v)
  }

  // ---- The writer ----

  datatype Level = Level(inArray: bool, valueCount: nat)

  datatype Writer = Writer(levels: seq<Level>, out: Bytes, hasRoot: bool)

  const NEW_WRITER := Writer([], [], false)

  /** Count a value and write what separates it from the one before; None where the source
      asserts that the caller made no mistake. */
  function Separate(w: Writer, isString: bool): Option<Writer>
  {
    if w.levels == [] then (if w.hasRoot then None else Some(w.(hasRoot := true)))
    else
      var n := |w.levels| - 1;
      var top := w.levels[n];
      var sep :=
        if top.valueCount == 0 then []
        else if top.inArray then [Ch(',')]
        else if top.valueCount % 2 == 0 then [Ch(',')]
        else [Ch(':')];
      if !top.inArray && top.valueCount % 2 == 0 && !isString then None
      else Some(w.(levels := w.levels[n := top.(valueCount := top.valueCount + 1)], out := w.out + sep))
  }

  function Put(w: Option<Writer>, text: Bytes): Option<Writer>
  {
    if w.None? then None else Some(w.value.(out := w.value.out + text))
  }

  function Open(w: Option<Writer>, inArray: bool): Option<Writer>
  {
    if w.None? then None
    else Some(w.value.(levels := w.value.levels + [Level(inArray, 0)],
                       out := w.value.out + [if inArray then Ch('[') else Ch('{')]))
  }

  function CloseLevel(w: Writer, inArray: bool): Option<Writer>
  {
    if w.levels == [] then None
    else
      var n := |w.levels| - 1;
      if w.levels[n].inArray != inArray || (!inArray && w.levels[n].valueCount % 2 != 0) then None
      else Some(w.(levels := w.levels[..n], out := w.out + [if inArray then Ch(']') else Ch('}')]))
  }

  /** One handler call.  Printing doubles is not modelled. */
  function Write(w: Writer, e: Event): Option<Writer>
  {
    match e
    case NullEvent => Put(Separate(w, false), NULL)
    case BoolEvent(b) => Put(Separate(w, false), if b then TRUE else FALSE)
    case IntEvent(i) => Put(Separate(w, false), IntegerText(i))
    case UintEvent(u) => Put(Separate(w, false), IntegerText(u))
    case Int64Event(i) => Put(Separate(w, false), IntegerText(i))
    case Uint64Event(u) => Put(Separate(w, false), IntegerText(u))
    case DoubleEvent(_, _, _) => None
    case StringEvent(str) => Put(Separate(w, true), Quoted(str))
    case KeyEvent(str) => Put(Separate(w, true), Quoted(str))
    case StartObject => Open(Separate(w, false), false)
    case StartArray => Open(Separate(w, false), true)
    case EndObject(_) => CloseLevel(w, false)
    case EndArray(_) => CloseLevel(w, true)
    case StrayEvent => None
  }

  function WriteAll(w: Writer, events: seq<Event>): Option<Writer>
    decreases |events|
  {
    if events == [] then Some(w)
    else
      match Write(w, events[0])
      case None => None
      case Some(next) => WriteAll(next, events[1..])
  }

  // ---- Trees as events and as text ----

  /** Trees the round trip is about: canonical integers, no doubles, sizes and lengths of type
      SizeType. */
  predicate Writable(v: JValue)
  {
    match v
    case JNumber(n) => CanonicalNumber(n)
    case JDouble(_, _, _) => false
    case JString(str) => |str| < WIDTH
    case JArray(es) => |es| < WIDTH && forall e <- es :: Writable(e)
    case JObject(ms) => |ms| < WIDTH && forall m <- ms :: |m.name| < WIDTH && Writable(m.value)
    case _ => true
  }

  /** The events of `GenericValue::Accept`. */
  function Accept(v: JValue): seq<Event>
    requires Writable(v)
    decreases v, 1
  {
    match v
    case JNull => [NullEvent]
    case JBool(b) => [BoolEvent(b)]
    case JNumber(n) => [NumberEvent(n)]
    case JString(str) => [StringEvent(str)]
    case JArray(es) => [StartArray] + AcceptElements(es) + [EndArray(|es|)]
    case JObject(ms) => [StartObject] + AcceptMembers(ms) + [EndObject(|ms|)]
  }

  function AcceptElements(es: seq<JValue>): seq<Event>
    requires forall e <- es :: Writable(e)
    decreases es, 0
  {
    if es == [] then [] else Accept(es[0]) + AcceptElements(es[1..])
  }

  function AcceptMembers(ms: seq<Member>): seq<Event>
    requires forall m <- ms :: |m.name| < WIDTH && Writable(m.value)
    decreases ms, 0
  {
    if ms == [] then []
    else [KeyEvent(ms[0].name)] + Accept(ms[0].value) + AcceptMembers(ms[1..])
  }

  /** The text of a tree. */
  function Text(v: JValue): Bytes
    requires Writable(v)
    decreases v, 1
  {
    match v
    case JNull => NULL
    case JBool(b) => if b then TRUE else FALSE
    case JNumber(n) => IntegerText(n.value)
    case JString(str) => Quoted(str)
    case JArray(es) => [Ch('[')] + ElementsText(es) + [Ch(']')]
    case JObject(ms) => [Ch('{')] + MembersText(ms) + [Ch('}')]
  }

  function ElementsText(es: seq<JValue>): Bytes
    requires forall e <- es :: Writable(e)
    decreases es, 0
  {
    if es == [] then []
    else if |es| == 1 then Text(es[0])
    else Text(es[0]) + [Ch(',')] + ElementsText(es[1..])
  }

  function MemberText(m: Member): Bytes
    requires |m.name| < WIDTH && Writable(m.value)
    decreases m, 1
  {
    Quoted(m.name) + [Ch(':')] + Text(m.value)
  }

  function MembersText(ms: seq<Member>): Bytes
    requires forall m <- ms :: |m.name| < WIDTH && Writable(m.value)
    decreases ms, 0
  {
    if ms == [] then []
    else if |ms| == 1 then MemberText(ms[0])
    else MemberText(ms[0]) + [Ch(',')] + MembersText(ms[1..])
  }

  // ---- The writer prints the text of the tree ----

  lemma {:induction false} WriteAppend(w: Writer, a: seq<Event>, b: seq<Event>)
    ensures WriteAll(w, a + b) == match WriteAll(w, a)
                                  case None => None
                                  case Some(next) => WriteAll(next, b)
    decreases |a|
  {
    if a == [] {
      assert a + b == b;
    } else {
      assert (a + b)[1..] == a[1..] + b;
      var next := Write(w, a[0]);
      if next.Some? {
        WriteAppend(next.value, a[1..], b);
      }
    }
  }

  lemma WriteOne(w: Writer, e: Event)
    ensures WriteAll(w, [e]) == Write(w, e)
  {
    assert [e][1..] == [];
    var next := Write(w, e);
    if next.Some? {
      assert WriteAll(next.value, []) == next;
    }
  }

  /** `k` more values in the innermost container, written as `text`. */
  function Filled(w: Writer, k: nat, text: Bytes): Writer
    requires w.levels != []
  {
    var n := |w.levels| - 1;
    w.(levels := w.levels[n := w.levels[n].(valueCount := w.levels[n].valueCount + k)], out := w.out + text)
  }

  function Lead(w: Writer): Bytes
    requires w.levels != []
  {
    if w.levels[|w.levels| - 1].valueCount > 0 then [Ch(',')] else []
  }

  /** Wherever a value may be written, sending a tree writes its separator and its text. */
  lemma {:induction false} TreeWritten(w: Writer, v: JValue)
    requires Writable(v) && Separate(w, false).Some?
    ensures WriteAll(w, Accept(v)) == Put(Separate(w, false), Text(v))
    decreases v, 1
  {
    hide Separate, Put, Filled, Quoted, IntegerText, WriteAll, Lead;
    match v
    case JArray(es) =>
      var open := Open(Separate(w, false), true).value;
      ElementsWritten(open, es);
      ContainerWritten(Separate(w, false).value, true, |es|, ElementsText(es));
      assert Lead(open) + ElementsText(es) == ElementsText(es);
      Bracketed(w, true, |es|, AcceptElements(es), ElementsText(es), |es|);
    case JObject(ms) =>
      var open := Open(Separate(w, false), false).value;
      MembersWritten(open, ms);
      ContainerWritten(Separate(w, false).value, false, 2 * |ms|, MembersText(ms));
      assert Lead(open) + MembersText(ms) == MembersText(ms);
      Bracketed(w, false, 2 * |ms|, AcceptMembers(ms), MembersText(ms), |ms|);
    case JString(str) =>
      WriteOne(w, StringEvent(str));
      StringMayStand(w);
    case JNumber(n) => WriteOne(w, NumberEvent(n));
    case JNull => WriteOne(w, NullEvent);
    case JBool(b) => WriteOne(w, BoolEvent(b));
  }

  lemma StringMayStand(w: Writer)
    requires Separate(w, false).Some?
    ensures Separate(w, true) == Separate(w, false)
  {
  }

  lemma ContainerWritten(w: Writer, inArray: bool, k: nat, text: Bytes)
    requires inArray || k % 2 == 0
    ensures Lead(Open(Some(w), inArray).value) == []
    ensures CloseLevel(Filled(Open(Some(w), inArray).value, k, text), inArray)
            == Put(Some(w), [if inArray then Ch('[') else Ch('{')] + text + [if inArray then Ch(']') else Ch('}')])
  {
    var full := Filled(Open(Some(w), inArray).value, k, text);
    assert full.levels[..|w.levels|] == w.levels;
    var a, c := if inArray then Ch('[') else Ch('{'), if inArray then Ch(']') else Ch('}');
    assert w.out + [a] + text + [c] == w.out + ([a] + text + [c]);
  }

  /** The brackets around the events of a container. */
  lemma Bracketed(w: Writer, inArray: bool, k: nat, inner: seq<Event>, text: Bytes, count: nat)
    requires Separate(w, false).Some? && (inArray || k % 2 == 0)
    requires var open := Open(Separate(w, false), inArray).value; WriteAll(open, inner) == Some(Filled(open, k, text))
    ensures WriteAll(w, [if inArray then StartArray else StartObject] + inner
                        + [if inArray then EndArray(count) else EndObject(count)])
            == Put(Separate(w, false), [if inArray then Ch('[') else Ch('{')] + text + [if inArray then Ch(']') else Ch('}')])
  {
    hide Separate, Put, Filled, WriteAll, CloseLevel, Lead;
    var start := if inArray then StartArray else StartObject;
    var last := if inArray then EndArray(count) else EndObject(count);
    var open := Open(Separate(w, false), inArray).value;
    WriteOne(w, start);
    WriteAppend(w, [start], inner);
    WriteAppend(w, [start] + inner, [last]);
    WriteOne(Filled(open, k, text), last);
    ContainerWritten(Separate(w, false).value, inArray, k, text);
  }

  lemma FilledTwice(w: Writer, j: nat, a: Bytes, k: nat, b: Bytes)
    requires w.levels != []
    ensures Filled(Filled(w, j, a), k, b) == Filled(w, j + k, a + b)
    ensures Filled(w, 0, []) == w
  {
    assert w.out + a + b == w.out + (a + b);
  }

  predicate Inside(w: Writer, inArray: bool)
  {
    w.levels != [] && var top := w.levels[|w.levels| - 1]; top.inArray == inArray && (inArray || top.valueCount % 2 == 0)
  }

  /** What the separator is at the three places inside a container. */
  lemma SeparatorOf(w: Writer, inArray: bool, text: Bytes, value: Bytes)
    requires Inside(w, inArray)
    ensures Put(Separate(w, !inArray), text) == Some(Filled(w, 1, Lead(w) + text))
    ensures inArray ==> Separate(w, false).Some? && Inside(Filled(w, 1, text), true)
    ensures !inArray ==> var named := Filled(w, 1, text);
                         && Separate(named, false).Some?
                         && Put(Separate(named, false), value) == Some(Filled(named, 1, [Ch(':')] + value))
                         && Inside(Filled(named, 1, value), false)
    ensures Lead(Filled(w, 1, text)) == [Ch(',')]
  {
    assert w.out + Lead(w) + text == w.out + (Lead(w) + text);
    assert w.out + text + [Ch(':')] + value == w.out + text + ([Ch(':')] + value);
  }

  lemma {:induction false} ElementsWritten(w: Writer, es: seq<JValue>)
    requires Inside(w, true)
    requires forall e <- es :: Writable(e)
    ensures WriteAll(w, AcceptElements(es))
            == Some(Filled(w, |es|, if es == [] then [] else Lead(w) + ElementsText(es)))
    decreases es, 0
  {
    hide Text, Accept, Write, Separate, Put, Filled, Lead, Writable;
    if es == [] {
      FilledTwice(w, 0, [], 0, []);
    } else {
      var text := Lead(w) + Text(es[0]);
      var one := Filled(w, 1, text);
      SeparatorOf(w, true, text, []);
      SeparatorOf(w, true, Text(es[0]), []);
      TreeWritten(w, es[0]);
      WriteAppend(w, Accept(es[0]), AcceptElements(es[1..]));
      ElementsWritten(one, es[1..]);
      var rest := if es[1..] == [] then [] else [Ch(',')] + ElementsText(es[1..]);
      FilledTwice(w, 1, text, |es| - 1, rest);
      assert text + rest == Lead(w) + ElementsText(es);
    }
  }

  /** In an object an even number of values is written between members. */
  lemma {:induction false} MembersWritten(w: Writer, ms: seq<Member>)
    requires Inside(w, false)
    requires forall m <- ms :: |m.name| < WIDTH && Writable(m.value)
    ensures WriteAll(w, AcceptMembers(ms))
            == Some(Filled(w, 2 * |ms|, if ms == [] then [] else Lead(w) + MembersText(ms)))
    decreases ms, 0
  {
    hide MemberText, Accept, Write, Separate, Put, Filled, Lead, Writable;
    if ms == [] {
      FilledTwice(w, 0, [], 0, []);
    } else {
      var m := ms[0];
      MemberWritten(w, m);
      var text := Lead(w) + MemberText(m);
      var one := Filled(w, 2, text);
      WriteAppend(w, [KeyEvent(m.name)] + Accept(m.value), AcceptMembers(ms[1..]));
      MembersWritten(one, ms[1..]);
      var rest := if ms[1..] == [] then [] else [Ch(',')] + MembersText(ms[1..]);
      FilledTwice(w, 2, text, 2 * (|ms| - 1), rest);
      assert text + rest == Lead(w) + MembersText(ms);
    }
  }

  lemma MemberWritten(w: Writer, m: Member)
    requires Inside(w, false) && |m.name| < WIDTH && Writable(m.value)
    ensures var one := Filled(w, 2, Lead(w) + MemberText(m));
            && WriteAll(w, [KeyEvent(m.name)] + Accept(m.value)) == Some(one)
            && Inside(one, false) && Lead(one) == [Ch(',')]
    decreases m, 1
  {
    hide Text, Quoted, Accept, WriteAll, Separate, Put, Writable;
    var key := Lead(w) + Quoted(m.name);
    var named := Filled(w, 1, key);
    var value := [Ch(':')] + Text(m.value);
    SeparatorOf(w, false, Quoted(m.name), []);
    SeparatorOf(w, false, key, Text(m.value));
    SeparatorOf(w, false, key, value);
    WriteOne(w, KeyEvent(m.name));
    WriteAppend(w, [KeyEvent(m.name)], Accept(m.value));
    TreeWritten(named, m.value);
    FilledTwice(w, 1, key, 1, value);
    assert key + value == Lead(w) + MemberText(m);
  }

  // ---- Room for the strings ----

  /** Every string of these events is put into room that was reserved for it. */
  predicate Covered(events: seq<Event>)
  {
    forall e <- events :: e.StringEvent? || e.KeyEvent? ==> Fits(e.str)
  }

  /** Strings and names for which the reserve does not wrap. */
  predicate Small(v: JValue)
  {
    match v
    case JString(str) => 2 + |str| * 6 < WIDTH
    case JArray(es) => forall e <- es :: Small(e)
    case JObject(ms) => forall m <- ms :: 2 + |m.name| * 6 < WIDTH && Small(m.value)
    case _ => true
  }

  lemma CoveredAppend(a: seq<Event>, b: seq<Event>)
    requires Covered(a) && Covered(b)
    ensures Covered(a + b)
  {
  }

  lemma CoveredName(str: Bytes)
    requires 2 + |str| * 6 < WIDTH
    ensures Covered([KeyEvent(str)]) && Covered([StringEvent(str)])
  {
    hide Fits;
    ReserveIff(|str|);
  }

  /** Sending a tree of such strings never puts a byte past the reserve. */
  lemma {:induction false} TreeCovered(v: JValue)
    requires Writable(v) && Small(v)
    ensures Covered(Accept(v))
    decreases v, 1
  {
    hide Fits;
    match v
    case JString(str) => CoveredName(str);
    case JArray(es) => ElementsCovered(es);
    case JObject(ms) => MembersCovered(ms);
    case _ =>
  }

  lemma {:induction false} ElementsCovered(es: seq<JValue>)
    requires forall e <- es :: Writable(e) && Small(e)
    ensures Covered(AcceptElements(es))
    decreases es, 0
  {
    hide Fits, Accept;
    if es != [] {
      TreeCovered(es[0]);
      ElementsCovered(es[1..]);
      CoveredAppend(Accept(es[0]), AcceptElements(es[1..]));
    }
  }

  lemma {:induction false} MembersCovered(ms: seq<Member>)
    requires forall m <- ms :: |m.name| < WIDTH && Writable(m.value) && 2 + |m.name| * 6 < WIDTH && Small(m.value)
    ensures Covered(AcceptMembers(ms))
    decreases ms, 0
  {
    hide Fits, Accept;
    if ms != [] {
      var m := ms[0];
      CoveredName(m.name);
      TreeCovered(m.value);
      MembersCovered(ms[1..]);
      CoveredAppend([KeyEvent(m.name)], Accept(m.value));
      CoveredAppend([KeyEvent(m.name)] + Accept(m.value), AcceptMembers(ms[1..]));
    }
  }

  // ---- The writer object ----

  /** The level stack, the output and the root flag, changed in place by each handler call.
      A precondition that a step is defined stands for the assertions of the source. */
  class StreamWriter {
    var levels: seq<Level>
    var out: Bytes
    var hasRoot: bool
    var room: nat        // what is left of the last reserve
    var covered: bool    // no byte was put past a reserve

    function State(): Writer
      reads this
    {
      Writer(levels, out, hasRoot)
    }

    constructor ()
      ensures State() == NEW_WRITER && covered
    {
      levels, out, hasRoot, room, covered := [], [], false, 0, true;
    }

    method Prefix(isString: bool)
      requires Separate(State(), isString).Some?
      modifies this
      ensures Separate(old(State()), isString) == Some(State()) && covered == old(covered)
    {
      if |levels| != 0 {
        var n := |levels| - 1;
        assert out + [] == out;
        if levels[n].valueCount > 0 {
          if levels[n].inArray {
            out := out + [Ch(',')];
          } else {
            out := out + [if levels[n].valueCount % 2 == 0 then Ch(',') else Ch(':')];
          }
        }
        levels := levels[n := levels[n].(valueCount := levels[n].valueCount + 1)];
      } else {
        hasRoot := true;
      }
    }

    /** Null, Bool, Int, Uint, Int64 and Uint64 differ in `text` only. */
    method Scalar(text: Bytes)
      requires Separate(State(), false).Some?
      modifies this
      ensures Put(Separate(old(State()), false), text) == Some(State()) && covered == old(covered)
    {
      Prefix(false);
      out := out + text;
    }

    /** Put without a check for room. */
    method PutUnsafe(c: Byte)
      modifies this`out, this`room, this`covered
      ensures out == old(out) + [c] && Spent(old(room), old(covered), 1)
    {
      if room == 0 {
        covered := false;
      } else {
        room := room - 1;
      }
      out := out + [c];
    }

    /** `k` bytes were put since `before` bytes were left. */
    ghost predicate Spent(before: nat, was: bool, k: nat)
      reads this
    {
      room == (if k <= before then before - k else 0) && covered == (was && k <= before)
    }

    method PutEscaped(c: Byte)
      modifies this`out, this`room, this`covered
      ensures out == old(out) + EscapeByte(c) && Spent(old(room), old(covered), |EscapeByte(c)|)
    {
      var code := EscapeCode(c);
      if code != 0 {
        PutUnsafe(Ch('\\'));
        PutUnsafe(code);
        if code == Ch('u') {
          PutUnsafe(Ch('0'));
          PutUnsafe(Ch('0'));
          PutUnsafe(HexChar(c / 16));
          PutUnsafe(HexChar(c % 16));
        }
      } else {
        PutUnsafe(c);
      }
    }

    /** The reserve and the loop of WriteString. */
    method WriteString(str: Bytes)
      modifies this`out, this`room, this`covered
      ensures out == old(out) + Quoted(str)
      ensures covered == (old(covered) && Fits(str))
    {
      hide EscapeByte;
      room := (2 + |str| * 6) % WIDTH;
      PutUnsafe(Ch('"'));
      var i := 0;
      ghost var start := out;
      while i < |str|
        invariant 0 <= i <= |str|
        invariant out == start + Escaped(str[..i])
        invariant Spent(Reserve(|str|), old(covered), 1 + |Escaped(str[..i])|)
      {
        PutEscaped(str[i]);
        EscapedStep(str, i);
        i := i + 1;
      }
      assert str[..i] == str;
      PutUnsafe(Ch('"'));
    }

    method String(str: Bytes)
      requires Separate(State(), true).Some?
      modifies this
      ensures Put(Separate(old(State()), true), Quoted(str)) == Some(State())
      ensures covered == (old(covered) && Fits(str))
    {
      Prefix(true);
      WriteString(str);
    }

    method Start(inArray: bool)
      requires Separate(State(), false).Some?
      modifies this
      ensures Open(Separate(old(State()), false), inArray) == Some(State()) && covered == old(covered)
    {
      Prefix(false);
      levels := levels + [Level(inArray, 0)];
      out := out + [if inArray then Ch('[') else Ch('{')];
    }

    method End(inArray: bool)
      requires CloseLevel(State(), inArray).Some?
      modifies this
      ensures CloseLevel(old(State()), inArray) == Some(State()) && covered == old(covered)
    {
      levels := levels[..|levels| - 1];
      out := out + [if inArray then Ch(']') else Ch('}')];
    }
  }

  lemma {:induction false} EscapedAppend(a: Bytes, b: Bytes)
    ensures Escaped(a + b) == Escaped(a) + Escaped(b)
    decreases |a|
  {
    if a == [] {
      assert a + b == b;
    } else {
      assert (a + b)[1..] == a[1..] + b;
      EscapedAppend(a[1..], b);
    }
  }

  lemma EscapedStep(str: Bytes, i: nat)
    requires i < |str|
    ensures Escaped(str[..i + 1]) == Escaped(str[..i]) + EscapeByte(str[i])
  {
    assert str[..i + 1] == str[..i] + [str[i]];
    assert [str[i]][1..] == [];
    EscapedAppend(str[..i], [str[i]]);
  }
}
