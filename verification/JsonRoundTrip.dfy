/**
 The JSON round trip: the text that the writer prints for a tree is accepted by the reader,
 and the document built from its events is that tree.
 */
module JsonRoundTrip {
  import opened ByteStrings
  import opened Utf8
  import opened JsonLexer
  import opened JsonReader
  import opened JsonDocument
  import opened JsonWriter

  // ---- Strings ----

  lemma PieceRead(s: Bytes, f: Flags, i: nat, c: Byte)
    requires (f.validate ==> c < 0x80) && Matches(s, i, EscapeByte(c))
    ensures s[i] != Ch('"') && StringPiece(s, f, i) == Good([c], i + |EscapeByte(c)|)
  {
    var text := EscapeByte(c);
    assert s[i + 0] == text[0];
    if EscapeCode(c) != 0 {
      assert s[i + 1] == text[1];
      if EscapeCode(c) == Ch('u') {
        assert s[i + 2] == text[2] && s[i + 3] == text[3] && s[i + 4] == text[4] && s[i + 5] == text[5];
        assert Hex4(s, i + 2) == Some(c);
      }
    }
  }

  /** Reading the escaped form of any byte string gives that string. */
  lemma {:induction false} StringRead(s: Bytes, f: Flags, i: nat, str: Bytes)
    requires !f.validate && Matches(s, i, Escaped(str) + [Ch('"')])
    ensures StringRest(s, f, i) == Good(str, i + |Escaped(str)| + 1)
    decreases |str|
  {
    hide StringPiece, EscapeByte;
    if str == [] {
      assert Escaped(str) + [Ch('"')] == [Ch('"')];
      First(s, i, [Ch('"')]);
    } else {
      var piece := EscapeByte(str[0]);
      assert Escaped(str) + [Ch('"')] == piece + (Escaped(str[1..]) + [Ch('"')]);
      MatchesSplit(s, i, piece, Escaped(str[1..]) + [Ch('"')]);
      PieceRead(s, f, i, str[0]);
      StringRead(s, f, i + |piece|, str[1..]);
      assert [str[0]] + str[1..] == str;
    }
  }

  /** With validation, only valid UTF-8 can be read. */
  predicate Readable(str: Bytes, f: Flags) { f.validate ==> DecodeAll(str, 0).Some? }

  lemma {:induction false} EscapedHigh(str: Bytes)
    requires forall c <- str :: c >= 0x80
    ensures Escaped(str) == str
    decreases |str|
  {
    hide EscapeByte;
    if str != [] {
      assert str[0] in str && forall c <- str[1..] :: c in str;
      HighByte(str[0]);
      EscapedHigh(str[1..]);
      assert str == [str[0]] + str[1..];
    }
  }

  lemma HighByte(c: Byte)
    requires c >= 0x80
    ensures EscapeByte(c) == [c]
  {
  }

  /** A whole multi-byte sequence is one piece. */
  lemma SequenceRead(s: Bytes, f: Flags, i: nat, cp: nat)
    requires f.validate && Scalar(cp) && cp >= 0x80 && Matches(s, i, Encode(cp))
    ensures s[i] != Ch('"') && StringPiece(s, f, i) == Good(Encode(cp), i + |Encode(cp)|)
  {
    hide Decode, Validate, Hex4;
    var e := Encode(cp);
    assert e[0] >= 0x80;
    First(s, i, e);
    DecodeEncoded(s, i, cp);
    ValidateLikeDecode(s, i);
    assert s[i..i + |e|] == e;
  }

  /** The same for valid UTF-8, read with validation. */
  lemma {:induction false} Utf8StringRead(s: Bytes, f: Flags, i: nat, cps: seq<nat>)
    requires f.validate && (forall cp <- cps :: Scalar(cp)) && Matches(s, i, Escaped(EncodeAll(cps)) + [Ch('"')])
    ensures StringRest(s, f, i) == Good(EncodeAll(cps), i + |Escaped(EncodeAll(cps))| + 1)
    decreases |cps|
  {
    hide StringPiece, EscapeByte, Encode, Matches, Escaped;
    if cps == [] {
      EscapedEmpty();
      assert [] + [Ch('"')] == [Ch('"')];
      First(s, i, [Ch('"')]);
    } else {
      assert cps[0] in cps && Scalar(cps[0]) && forall c <- cps[1..] :: c in cps;
      var cp, rest := cps[0], EncodeAll(cps[1..]);
      var e := Encode(cp);
      EscapedAppend(e, rest);
      Associates(Escaped(e), Escaped(rest), [Ch('"')]);
      MatchesSplit(s, i, Escaped(e), Escaped(rest) + [Ch('"')]);
      OnePiece(s, f, i, cp);
      Utf8StringRead(s, f, i + |Escaped(e)|, cps[1..]);
    }
  }

  lemma EscapedEmpty()
    ensures Escaped([]) == []
  {
  }

  lemma OnePiece(s: Bytes, f: Flags, i: nat, cp: nat)
    requires f.validate && Scalar(cp) && Matches(s, i, Escaped(Encode(cp)))
    ensures i < |s| && s[i] != Ch('"') && StringPiece(s, f, i) == Good(Encode(cp), i + |Escaped(Encode(cp))|)
  {
    hide StringPiece, EscapeByte;
    if cp < 0x80 {
      assert [cp][1..] == [];
      assert Escaped([cp]) == EscapeByte(cp) + [] == EscapeByte(cp);
      PieceRead(s, f, i, cp);
    } else {
      assert forall c <- Encode(cp) :: c >= 0x80;
      EscapedHigh(Encode(cp));
      SequenceRead(s, f, i, cp);
    }
  }

  lemma QuotedRead(s: Bytes, f: Flags, i: nat, str: Bytes)
    requires Readable(str, f) && Matches(s, i, Quoted(str))
    ensures Peek(s, i) == Ch('"') && StringRest(s, f, i + 1) == Good(str, i + |Quoted(str)|)
  {
    hide Escaped, DecodeAll, EncodeAll;
    assert Quoted(str) == [Ch('"')] + (Escaped(str) + [Ch('"')]);
    MatchesSplit(s, i, [Ch('"')], Escaped(str) + [Ch('"')]);
    First(s, i, [Ch('"')]);
    if f.validate {
      var cps := DecodeAll(str, 0).value;
      StreamDecodes(str, 0, cps);
      assert str[0..] == str;
      Utf8StringRead(s, f, i + 1, cps);
    } else {
      StringRead(s, f, i + 1, str);
    }
  }

  // ---- Integers ----

  lemma {:induction false} DigitsRead(s: Bytes, i: nat, n: nat)
    requires Matches(s, i, Digits(n))
    ensures Digits(n) != [] && (n > 0 ==> s[i] != Ch('0')) && (n == 0 ==> Digits(n) == [Ch('0')])
    ensures i + |Digits(n)| <= |s| && forall k :: i <= k < i + |Digits(n)| ==> IsDigit(s[k])
    ensures Decimal(s, i, i + |Digits(n)|) == n
    decreases n
  {
    if n < 10 {
      First(s, i, [Ch('0') + n]);
      assert Decimal(s, i, i) == 0;
    } else {
      MatchesSplit(s, i, Digits(n / 10), [Ch('0') + n % 10]);
      DigitsRead(s, i, n / 10);
      var j := i + |Digits(n / 10)|;
      First(s, j, [Ch('0') + n % 10]);
    }
  }

  lemma {:induction false} DigitsEndIs(s: Bytes, i: nat, j: nat)
    requires i <= j <= |s| && !IsDigit(Peek(s, j)) && forall k :: i <= k < j ==> IsDigit(s[k])
    ensures DigitsEnd(s, i) == j
    decreases j - i
  {
    if i < j {
      DigitsEndIs(s, i + 1, j);
    }
  }

  /** What may follow a value in printed text. */
  predicate Ends(c: Byte) { c == Ch(',') || c == Ch(']') || c == Ch('}') || c == 0 }

  lemma IntegerRead(s: Bytes, i: nat, v: int)
    requires 0 - Limit64(true) <= v <= Limit64(false)
    requires Matches(s, i, IntegerText(v)) && Ends(Peek(s, i + |IntegerText(v)|))
    ensures LexNumber(s, i) == Good(IntegerEvent(v < 0, if v < 0 then 0 - v else v), i + |IntegerText(v)|)
    ensures Peek(s, i) == Ch('-') || IsDigit(Peek(s, i))
  {
    hide Matches, TooBig, Digits, Exponent;
    var n: nat := if v < 0 then 0 - v else v;
    var j := if v < 0 then i + 1 else i;
    if v < 0 {
      MatchesSplit(s, i, [Ch('-')], Digits(n));
      First(s, i, [Ch('-')]);
    }
    DigitsRead(s, j, n);
    var k := j + |Digits(n)|;
    DigitsEndIs(s, j, k);
    assert LexInteger(s, i) == Good(Integer(v < 0, n, |Digits(n)|), k);
  }

  // ---- Strings on their way to the handler ----

  /** All strings of these events reach the handler whole, or some pointer is past its string. */
  predicate Carries(events: seq<Event>, whole: bool)
  {
    if whole then AllBrief(events) else StrayEvent in Told(events)
  }

  lemma CarriesBoth(a: seq<Event>, b: seq<Event>, x: bool, y: bool)
    requires Carries(a, x) && Carries(b, y)
    ensures Carries(a + b, x && y)
  {
    hide Told, AllBrief;
    ToldAppend(a, b);
    AllBriefAppend(a, b);
  }

  /** A string of 32-bit length is whole exactly if it is shorter than 2^32 - 1 bytes. */
  lemma CarriesOne(e: Event)
    requires e != StrayEvent && (e.StringEvent? || e.KeyEvent? ==> |e.str| < WIDTH)
    ensures Carries([e], e.StringEvent? || e.KeyEvent? ==> Brief(e.str))
  {
    ToldOne(e);
  }

  lemma {:induction false} StrayFails(stack: seq<JValue>, events: seq<Event>)
    requires StrayEvent in events
    ensures Build(stack, events) == None
    decreases |events|
  {
    var next := Handle(stack, events[0]);
    if next.Some? {
      assert events == [events[0]] + events[1..];
      StrayFails(next.value, events[1..]);
    }
  }

  // ---- Trees ----

  /** What a value starts with: nothing that is skipped, and no closing bracket. */
  predicate Starts(c: Byte) { !IsSpace(c) && c != Ch('/') && c != Ch(']') && c != Ch('}') && c != 0 }

  lemma {:induction false} DigitsStart(n: nat)
    ensures Digits(n) != [] && IsDigit(Digits(n)[0])
    decreases n
  {
    if n >= 10 {
      DigitsStart(n / 10);
    }
  }

  lemma TextStarts(v: JValue)
    requires Writable(v)
    ensures Text(v) != [] && Starts(Text(v)[0])
  {
    if v.JNumber? {
      var n := v.num.value;
      DigitsStart(if n < 0 then 0 - n else n);
    }
  }

  lemma {:induction false} NumberRead(s: Bytes, f: Flags, i: nat, n: Number, stack: seq<JValue>)
    requires CanonicalNumber(n)
    requires Matches(s, i, IntegerText(n.value)) && Ends(Peek(s, i + |IntegerText(n.value)|))
    ensures var r := Value(s, f, i);
            && r.Done? && r.next == i + |IntegerText(n.value)| && Build(stack, r.events) == Some(stack + [JNumber(n)])
            && Carries(r.events, true)
  {
    hide LexNumber, IntegerText, StringRest, FromInt, FromUint, FromInt64, FromUint64, RangeFlags;
    var v := n.value;
    assert InRange(Int64Flag, v) || InRange(Uint64Flag, v) by { NumberHasRange(n); }
    IntegerRead(s, i, v);
    FlagsAreRanges(v);
    var e := IntegerEvent(v < 0, if v < 0 then 0 - v else v);
    assert Value(s, f, i) == Done(i + |IntegerText(v)|, [e]);
    BuildOne(stack, e);
    CarriesOne(e);
  }

  lemma NumberHasRange(n: Number)
    requires CanonicalNumber(n)
    ensures InRange(Int64Flag, n.value) || InRange(Uint64Flag, n.value)
  {
  }

  /** All names and strings of a tree can be read with these flags. */
  predicate ReadableTree(v: JValue, f: Flags)
  {
    match v
    case JString(str) => Readable(str, f)
    case JArray(es) => forall e <- es :: ReadableTree(e, f)
    case JObject(ms) => forall m <- ms :: Readable(m.name, f) && ReadableTree(m.value, f)
    case _ => true
  }

  /** Reading the text of a tree at any place yields events that put exactly that tree on the
      stack; they reach the handler unchanged if no string has 2^32 - 1 bytes. */
  lemma {:induction false} TreeRead(s: Bytes, f: Flags, i: nat, v: JValue, stack: seq<JValue>)
    requires ReadableTree(v, f) && Writable(v) && Matches(s, i, Text(v)) && Ends(Peek(s, i + |Text(v)|))
    ensures var r := Value(s, f, i);
            && r.Done? && r.next == i + |Text(v)| && Build(stack, r.events) == Some(stack + [v])
            && Carries(r.events, BriefTree(v))
    decreases v, 1
  {
    hide LexNumber, IntegerText, StringRest, Quoted, Elements, Members, Build, Skip, Carries, Brief;
    match v
    case JNull =>
      First(s, i, NULL);
      BuildOne(stack, NullEvent);
      CarriesOne(NullEvent);
    case JBool(b) =>
      First(s, i, Text(v));
      BuildOne(stack, BoolEvent(b));
      CarriesOne(BoolEvent(b));
    case JNumber(n) => NumberRead(s, f, i, n, stack);
    case JString(str) =>
      QuotedRead(s, f, i, str);
      BuildOne(stack, StringEvent(str));
      CarriesOne(StringEvent(str));
    case JArray(es) => ArrayRead(s, f, i, es, stack);
    case JObject(ms) => ObjectRead(s, f, i, ms, stack);
  }

  lemma {:induction false} ArrayRead(s: Bytes, f: Flags, i: nat, es: seq<JValue>, stack: seq<JValue>)
    requires ReadableTree(JArray(es), f) && Writable(JArray(es)) && Matches(s, i, Text(JArray(es)))
    ensures var r := Value(s, f, i);
            && r.Done? && r.next == i + |Text(JArray(es))|
            && Build(stack, r.events) == Some(stack + [JArray(es)])
            && Carries(r.events, AllBriefTrees(es))
    decreases es, 1
  {
    hide Matches, Elements, Build, Skip, Leaf, Carries;
    assert Text(JArray(es)) == [Ch('[')] + (ElementsText(es) + [Ch(']')]);
    MatchesSplit(s, i, [Ch('[')], ElementsText(es) + [Ch(']')]);
    MatchesSplit(s, i + 1, ElementsText(es), [Ch(']')]);
    First(s, i, [Ch('[')]);
    First(s, i + 1 + |ElementsText(es)|, [Ch(']')]);
    BuildOne(stack, StartArray);
    assert stack + [JArray([])] == stack + [JArray([])] + [];
    if es == [] {
      NoSkip(s, f, i + 1);
      var _ := CloseArray(stack, []);
      CarriesOne(EndArray(0));
    } else {
      ElementsStart(s, f, i + 1, es);
      ElementsRead(s, f, i + 1, es, stack, []);
      assert [] + es == es;
    }
    BuildAppend(stack, [StartArray], ArrayBody(s, f, i + 1).events);
    CarriesOne(StartArray);
    CarriesBoth([StartArray], ArrayBody(s, f, i + 1).events, true, AllBriefTrees(es));
  }

  lemma ElementsStart(s: Bytes, f: Flags, i: nat, es: seq<JValue>)
    requires es != [] && (forall e <- es :: Writable(e)) && Matches(s, i, ElementsText(es) + [Ch(']')])
    ensures Skip(s, f, i) == Some(i) && Peek(s, i) != Ch(']')
  {
    hide Matches, Text, Skip;
    TextStarts(es[0]);
    assert (ElementsText(es) + [Ch(']')])[0] == Text(es[0])[0];
    First(s, i, ElementsText(es) + [Ch(']')]);
    NoSkip(s, f, i);
  }

  lemma {:induction false} ElementsRead(s: Bytes, f: Flags, i: nat, es: seq<JValue>, base: seq<JValue>, done: seq<JValue>)
    requires es != [] && (forall e <- es :: ReadableTree(e, f) && Writable(e)) && |done| + |es| < WIDTH
    requires Matches(s, i, ElementsText(es) + [Ch(']')])
    ensures var r := Elements(s, f, i, |done|);
            && r.Done? && r.next == i + |ElementsText(es)| + 1
            && Build(base + [JArray([])] + done, r.events) == Some(base + [JArray(done + es)])
            && Carries(r.events, AllBriefTrees(es))
    decreases es, 0
  {
    hide Matches, Text, Build, Skip, Value, Writable, ReadableTree, Readable, Carries, BriefTree, AllBriefTrees;
    var stack := base + [JArray([])] + done;
    var v, rest := es[0], if |es| == 1 then [Ch(']')] else [Ch(',')] + (ElementsText(es[1..]) + [Ch(']')]);
    assert ElementsText(es) + [Ch(']')] == Text(v) + rest;
    MatchesSplit(s, i, Text(v), rest);
    var j := i + |Text(v)|;
    First(s, j, rest);
    TreeRead(s, f, i, v, stack);
    NoSkip(s, f, j);
    assert stack + [v] == base + [JArray([])] + (done + [v]);
    if |es| == 1 {
      var _ := CloseArray(base, done + [v]);
      CarriesOne(EndArray(|done| + 1));
      NoTrees();
      assert es == [v];
    } else {
      MatchesSplit(s, j, [Ch(',')], ElementsText(es[1..]) + [Ch(']')]);
      ElementsStart(s, f, j + 1, es[1..]);
      ElementsRead(s, f, j + 1, es[1..], base, done + [v]);
      assert AfterElement(s, f, j, |done| + 1) == Elements(s, f, j + 1, |done| + 1);
      assert done + [v] + es[1..] == done + es;
    }
    BuildAppend(stack, Value(s, f, i).events, AfterElement(s, f, j, |done| + 1).events);
    ElementCarries(es, Value(s, f, i).events, AfterElement(s, f, j, |done| + 1).events);
  }

  lemma NoTrees()
    ensures AllBriefTrees([]) && MembersBrief([])
  {
  }

  lemma ElementCarries(es: seq<JValue>, value: seq<Event>, last: seq<Event>)
    requires es != [] && Carries(value, BriefTree(es[0])) && Carries(last, AllBriefTrees(es[1..]))
    ensures Carries(value + last, AllBriefTrees(es))
  {
    hide Carries, BriefTree;
    CarriesBoth(value, last, BriefTree(es[0]), AllBriefTrees(es[1..]));
    assert es == [es[0]] + es[1..];
  }

  lemma {:induction false} ObjectRead(s: Bytes, f: Flags, i: nat, ms: seq<Member>, stack: seq<JValue>)
    requires ReadableTree(JObject(ms), f) && Writable(JObject(ms)) && Matches(s, i, Text(JObject(ms)))
    ensures var r := Value(s, f, i);
            && r.Done? && r.next == i + |Text(JObject(ms))|
            && Build(stack, r.events) == Some(stack + [JObject(ms)])
            && Carries(r.events, MembersBrief(ms))
    decreases ms, 2
  {
    hide Matches, Members, Build, Skip, Leaf, Carries;
    assert Text(JObject(ms)) == [Ch('{')] + (MembersText(ms) + [Ch('}')]);
    MatchesSplit(s, i, [Ch('{')], MembersText(ms) + [Ch('}')]);
    MatchesSplit(s, i + 1, MembersText(ms), [Ch('}')]);
    First(s, i, [Ch('{')]);
    First(s, i + 1 + |MembersText(ms)|, [Ch('}')]);
    BuildOne(stack, StartObject);
    assert stack + [JObject([])] == stack + [JObject([])] + [];
    if ms == [] {
      NoSkip(s, f, i + 1);
      var _ := CloseObject(stack, [], 0);
      CarriesOne(EndObject(0));
    } else {
      MembersStart(s, f, i + 1, ms);
      MembersRead(s, f, i + 1, ms, stack, []);
      assert [] + ms == ms;
    }
    BuildAppend(stack, [StartObject], ObjectBody(s, f, i + 1).events);
    CarriesOne(StartObject);
    CarriesBoth([StartObject], ObjectBody(s, f, i + 1).events, true, MembersBrief(ms));
  }

  lemma MembersStart(s: Bytes, f: Flags, i: nat, ms: seq<Member>)
    requires ms != [] && (forall m <- ms :: |m.name| < WIDTH && Writable(m.value)) && Matches(s, i, MembersText(ms) + [Ch('}')])
    ensures Skip(s, f, i) == Some(i) && Peek(s, i) == Ch('"')
  {
    hide Matches, Text, Skip;
    MembersSplit(ms);
    assert (MembersText(ms) + [Ch('}')])[0] == Quoted(ms[0].name)[0] == Ch('"');
    First(s, i, MembersText(ms) + [Ch('}')]);
    NoSkip(s, f, i);
  }

  lemma {:induction false} MembersRead(s: Bytes, f: Flags, i: nat, ms: seq<Member>, base: seq<JValue>, done: seq<Member>)
    requires ms != [] && |done| + |ms| < WIDTH
    requires forall m <- ms :: Readable(m.name, f) && ReadableTree(m.value, f) && |m.name| < WIDTH && Writable(m.value)
    requires Matches(s, i, MembersText(ms) + [Ch('}')])
    ensures var r := Members(s, f, i, |done|);
            && r.Done? && r.next == i + |MembersText(ms)| + 1
            && Build(base + [JObject([])] + Flat(done), r.events) == Some(base + [JObject(done + ms)])
            && Carries(r.events, MembersBrief(ms))
    decreases ms, 1
  {
    hide Matches, Text, Quoted, Build, Skip, Value, StringRest, MembersText, MembersTail, AfterMember;
    hide Writable, ReadableTree, Readable, Carries, BriefTree, Brief, MembersBrief;
    var m, tail := ms[0], MembersTail(ms);
    var k := i + |Quoted(m.name)|;
    var j := k + 1 + |Text(m.value)|;
    MemberPlaces(s, f, i, ms);
    QuotedRead(s, f, i, m.name);
    var stack := base + [JObject([])] + Flat(done);
    var keyed := stack + [JString(m.name)];
    TreeRead(s, f, k + 1, m.value, keyed);
    MemberTailRead(s, f, j, ms, base, done);
    var value, last := Value(s, f, k + 1).events, AfterMember(s, f, j, |done| + 1).events;
    assert AfterKey(s, f, k, |done|) == AfterColon(s, f, k + 1, |done|) == Done(j + |tail|, value + last);
    BuildOne(stack, KeyEvent(m.name));
    BuildAppend(stack, [KeyEvent(m.name)], value + last);
    BuildAppend(keyed, value, last);
    MemberCarries(ms, value, last);
    assert (done + [m])[..|done|] == done;
    assert keyed + [m.value] == base + [JObject([])] + Flat(done + [m]);
  }

  lemma MemberCarries(ms: seq<Member>, value: seq<Event>, last: seq<Event>)
    requires ms != [] && |ms[0].name| < WIDTH
    requires Carries(value, BriefTree(ms[0].value)) && Carries(last, MembersBrief(ms[1..]))
    ensures Carries([KeyEvent(ms[0].name)] + (value + last), MembersBrief(ms))
  {
    hide Carries, BriefTree, Brief;
    var m := ms[0];
    CarriesOne(KeyEvent(m.name));
    CarriesBoth(value, last, BriefTree(m.value), MembersBrief(ms[1..]));
    CarriesBoth([KeyEvent(m.name)], value + last, Brief(m.name), BriefTree(m.value) && MembersBrief(ms[1..]));
    assert ms == [m] + ms[1..];
  }

  /** Where the parts of the first member lie. */
  lemma MemberPlaces(s: Bytes, f: Flags, i: nat, ms: seq<Member>)
    requires ms != [] && (forall m <- ms :: |m.name| < WIDTH && Writable(m.value)) && Matches(s, i, MembersText(ms) + [Ch('}')])
    ensures var m := ms[0];
            var k := i + |Quoted(m.name)|;
            var j := k + 1 + |Text(m.value)|;
            && Matches(s, i, Quoted(m.name))
            && k < j <= |s| && Peek(s, k) == Ch(':') && Skip(s, f, k) == Some(k) && Skip(s, f, k + 1) == Some(k + 1)
            && Matches(s, k + 1, Text(m.value)) && Ends(Peek(s, j))
            && Matches(s, j, MembersTail(ms))
            && j + |MembersTail(ms)| == i + |MembersText(ms)| + 1
  {
    hide Matches, Text, Quoted, Skip, MembersText, Writable;
    var m, tail := ms[0], MembersTail(ms);
    var k := i + |Quoted(m.name)|;
    var value := Text(m.value) + tail;
    MembersSplit(ms);
    MatchesSplit(s, i, Quoted(m.name), [Ch(':')] + value);
    MatchesSplit(s, k, [Ch(':')], value);
    MatchesSplit(s, k + 1, Text(m.value), tail);
    First(s, k, [Ch(':')]);
    NoSkip(s, f, k);
    TextStarts(m.value);
    First(s, k + 1, Text(m.value));
    NoSkip(s, f, k + 1);
    First(s, k + 1 + |Text(m.value)|, tail);
  }

  function MembersTail(ms: seq<Member>): Bytes
    requires ms != [] && forall m <- ms :: |m.name| < WIDTH && Writable(m.value)
    decreases ms, 1
  {
    if |ms| == 1 then [Ch('}')] else [Ch(',')] + (MembersText(ms[1..]) + [Ch('}')])
  }

  lemma MembersSplit(ms: seq<Member>)
    requires ms != [] && forall m <- ms :: |m.name| < WIDTH && Writable(m.value)
    ensures MembersText(ms) + [Ch('}')] == Quoted(ms[0].name) + ([Ch(':')] + (Text(ms[0].value) + MembersTail(ms)))
  {
    hide Text, Quoted, Writable;
  }

  lemma {:induction false} MemberTailRead(s: Bytes, f: Flags, j: nat, ms: seq<Member>, base: seq<JValue>, done: seq<Member>)
    requires ms != [] && |done| + |ms| < WIDTH
    requires forall m <- ms :: Readable(m.name, f) && ReadableTree(m.value, f) && |m.name| < WIDTH && Writable(m.value)
    requires Matches(s, j, MembersTail(ms))
    ensures var r := AfterMember(s, f, j, |done| + 1);
            && r.Done? && r.next == j + |MembersTail(ms)|
            && Build(base + [JObject([])] + Flat(done + [ms[0]]), r.events) == Some(base + [JObject(done + ms)])
            && Carries(r.events, MembersBrief(ms[1..]))
    decreases ms, 0
  {
    hide Carries;
    hide Matches, Text, Quoted, Build, Skip, Value, StringRest, MembersText, Members, Flat, Writable, ReadableTree, Readable;
    First(s, j, MembersTail(ms));
    NoSkip(s, f, j);
    var next := done + [ms[0]];
    if |ms| == 1 {
      PairsOfFlat(next);
      var _ := CloseObject(base, Flat(next), |done| + 1);
      CarriesOne(EndObject(|done| + 1));
      assert ms == [ms[0]];
    } else {
      MatchesSplit(s, j, [Ch(',')], MembersText(ms[1..]) + [Ch('}')]);
      MembersStart(s, f, j + 1, ms[1..]);
      MembersRead(s, f, j + 1, ms[1..], base, next);
      assert next + ms[1..] == done + ms;
    }
  }

  /** The text that a fresh writer prints for a tree. */
  function Print(v: JValue): Option<Bytes>
    requires Writable(v)
  {
    match WriteAll(NEW_WRITER, Accept(v))
    case None => None
    case Some(w) => Some(w.out)
  }

  /** For every tree of nulls, booleans, integers, byte strings, arrays and objects: the
      writer never meets an assertion about its levels and ends with all of them closed, and the
      text it printed is accepted.  The handler rebuilds the tree and nothing else exactly if no
      string and no name has 2^32 - 1 bytes; then both parsers emit the same events.  In a
      memory buffer, strings of at most 715827882 bytes never pass what is reserved for them.
      With the default flags this holds for arbitrary bytes; with validation, for valid UTF-8. */
  lemma RoundTrip(v: JValue, f: Flags)
    requires Writable(v) && ReadableTree(v, f)
    ensures WriteAll(NEW_WRITER, Accept(v)) == Some(Writer([], Text(v), true))
    ensures Print(v) == Some(Text(v))
    ensures Small(v) ==> Covered(Accept(v))
    ensures var t := ParseEvents(Text(v), f);
            && t.Accepted?
            && (Build([], Told(t.events)) == Some([v]) <==> BriefTree(v))
            && (BriefTree(v) ==> IterativeEvents(Text(v), f) == t)
  {
    hide Text, WriteAll, Accept, ParseEvents, IterativeEvents, Build, BriefTree, Covered;
    TreePrinted(v);
    TextParsed(v, f);
    var events := ParseEvents(Text(v), f).events;
    if BriefTree(v) {
      ToldIff(events);
      ParsersAgree(Text(v), f);
    } else {
      StrayFails([], Told(events));
    }
    if Small(v) {
      TreeCovered(v);
    }
  }

  lemma TreePrinted(v: JValue)
    requires Writable(v)
    ensures WriteAll(NEW_WRITER, Accept(v)) == Some(Writer([], Text(v), true))
  {
    hide Text, WriteAll, Accept;
    TreeWritten(NEW_WRITER, v);
    assert [] + Text(v) == Text(v);
  }

  lemma TextParsed(v: JValue, f: Flags)
    requires Writable(v) && ReadableTree(v, f)
    ensures var t := ParseEvents(Text(v), f);
            t.Accepted? && Build([], t.events) == Some([v]) && Carries(t.events, BriefTree(v))
  {
    hide Text, Value, Build, Skip, Carries, BriefTree;
    var s := Text(v);
    TextStarts(v);
    NoSkip(s, f, 0);
    Whole(s);
    TreeRead(s, f, 0, v, []);
    NoSkip(s, f, |s|);
    assert [] + [v] == [v];
  }
}
