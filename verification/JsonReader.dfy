/**
 The two JSON parsers: recursive descent, and the table-driven one with an explicit stack of
 (state, count) frames.  They give the same verdict and emit the same events, as long as the
 strings do not get in the way: they lie on the same stack as the frames, and their length is
 a 32-bit number.
 */
module JsonReader {
  import opened ByteStrings
  import opened JsonLexer

  /** The outcome of a part of the text, with the events emitted in it, strings as read. */
  datatype Parsed = Fail(events: seq<Event>) | Done(next: nat, events: seq<Event>)

  /** The outcome of a whole text. */
  datatype Trace = Rejected(events: seq<Event>) | Accepted(events: seq<Event>)

  /** Member and element counts are 32-bit. */
  function Inc(count: nat): (r: nat)
    ensures r < WIDTH
  {
    (count + 1) % WIDTH
  }

  const NULL: Bytes := [Ch('n'), Ch('u'), Ch('l'), Ch('l')]
  const TRUE: Bytes := [Ch('t'), Ch('r'), Ch('u'), Ch('e')]
  const FALSE: Bytes := [Ch('f'), Ch('a'), Ch('l'), Ch('s'), Ch('e')]

  /** A value that is neither an object nor an array. */
  function Leaf(s: Bytes, f: Flags, i: nat): (r: Parsed)
    requires i <= |s|
    ensures r.Done? ==> i < r.next <= |s|
  {
    var c := Peek(s, i);
    if c == Ch('n') then (if Matches(s, i, NULL) then Done(i + 4, [NullEvent]) else Fail([]))
    else if c == Ch('t') then (if Matches(s, i, TRUE) then Done(i + 4, [BoolEvent(true)]) else Fail([]))
    else if c == Ch('f') then (if Matches(s, i, FALSE) then Done(i + 5, [BoolEvent(false)]) else Fail([]))
    else if c == Ch('"') then
      match StringRest(s, f, i + 1)
      case Bad => Fail([])
      case Good(str, j) => Done(j, [StringEvent(str)])
    else
      match LexNumber(s, i)
      case Bad => Fail([])
      case Good(e, j) => Done(j, [e])
  }

  // ---- Recursive descent ----

  function Value(s: Bytes, f: Flags, i: nat): (r: Parsed)
    requires i <= |s|
    ensures r.Done? ==> i < r.next <= |s|
    decreases |s| - i, 1
  {
    if Peek(s, i) == Ch('{') then Prefix([StartObject], ObjectBody(s, f, i + 1))
    else if Peek(s, i) == Ch('[') then Prefix([StartArray], ArrayBody(s, f, i + 1))
    else Leaf(s, f, i)
  }

  function ObjectBody(s: Bytes, f: Flags, i: nat): (r: Parsed)
    requires i <= |s|
    ensures r.Done? ==> i < r.next <= |s|
    decreases |s| - i, 3
  {
    match Skip(s, f, i)
    case None => Fail([])
    case Some(j) => if Peek(s, j) == Ch('}') then Done(j + 1, [EndObject(0)]) else Members(s, f, j, 0)
  }

  function ArrayBody(s: Bytes, f: Flags, i: nat): (r: Parsed)
    requires i <= |s|
    ensures r.Done? ==> i < r.next <= |s|
    decreases |s| - i, 3
  {
    match Skip(s, f, i)
    case None => Fail([])
    case Some(j) => if Peek(s, j) == Ch(']') then Done(j + 1, [EndArray(0)]) else Elements(s, f, j, 0)
  }

  function Prefix(events: seq<Event>, p: Parsed): Parsed
  {
    match p
    case Fail(rest) => Fail(events + rest)
    case Done(j, rest) => Done(j, events + rest)
  }

  /** Elements from `i` on and the closing bracket, after `count` of them. */
  function Elements(s: Bytes, f: Flags, i: nat, count: nat): (r: Parsed)
    requires i <= |s|
    ensures r.Done? ==> i < r.next <= |s|
    decreases |s| - i, 2
  {
    match Value(s, f, i)
    case Fail(events) => Fail(events)
    case Done(j, events) => Prefix(events, AfterElement(s, f, j, Inc(count)))
  }

  function AfterElement(s: Bytes, f: Flags, i: nat, count: nat): (r: Parsed)
    requires i <= |s|
    ensures r.Done? ==> i < r.next <= |s|
    decreases |s| - i, 3
  {
    match Skip(s, f, i)
    case None => Fail([])
    case Some(j) =>
      if Peek(s, j) == Ch(']') then Done(j + 1, [EndArray(count)])
      else if Peek(s, j) != Ch(',') then Fail([])
      else ElementAfterComma(s, f, j + 1, count)
  }

  function ElementAfterComma(s: Bytes, f: Flags, i: nat, count: nat): (r: Parsed)
    requires i <= |s|
    ensures r.Done? ==> i < r.next <= |s|
    decreases |s| - i, 3
  {
    match Skip(s, f, i)
    case None => Fail([])
    case Some(j) =>
      if f.trailingCommas && Peek(s, j) == Ch(']') then Done(j + 1, [EndArray(count)])
      else Elements(s, f, j, count)
  }

  /** Members from `i` on and the closing brace, after `count` of them. */
  function Members(s: Bytes, f: Flags, i: nat, count: nat): (r: Parsed)
    requires i <= |s|
    ensures r.Done? ==> i < r.next <= |s|
    decreases |s| - i, 2
  {
    if Peek(s, i) != Ch('"') then Fail([])
    else
      match StringRest(s, f, i + 1)
      case Bad => Fail([])
      case Good(key, j) => Prefix([KeyEvent(key)], AfterKey(s, f, j, count))
  }

  function AfterKey(s: Bytes, f: Flags, i: nat, count: nat): (r: Parsed)
    requires i <= |s|
    ensures r.Done? ==> i < r.next <= |s|
    decreases |s| - i, 2
  {
    match Skip(s, f, i)
    case None => Fail([])
    case Some(j) =>
      if Peek(s, j) != Ch(':') then Fail([]) else AfterColon(s, f, j + 1, count)
  }

  function AfterColon(s: Bytes, f: Flags, i: nat, count: nat): (r: Parsed)
    requires i <= |s|
    ensures r.Done? ==> i < r.next <= |s|
    decreases |s| - i, 2
  {
    match Skip(s, f, i)
    case None => Fail([])
    case Some(j) =>
      match Value(s, f, j)
      case Fail(events) => Fail(events)
      case Done(k, events) => Prefix(events, AfterMember(s, f, k, Inc(count)))
  }

  function AfterMember(s: Bytes, f: Flags, i: nat, count: nat): (r: Parsed)
    requires i <= |s|
    ensures r.Done? ==> i < r.next <= |s|
    decreases |s| - i, 3
  {
    match Skip(s, f, i)
    case None => Fail([])
    case Some(j) =>
      if Peek(s, j) == Ch('}') then Done(j + 1, [EndObject(count)])
      else if Peek(s, j) != Ch(',') then Fail([])
      else MemberAfterComma(s, f, j + 1, count)
  }

  function MemberAfterComma(s: Bytes, f: Flags, i: nat, count: nat): (r: Parsed)
    requires i <= |s|
    ensures r.Done? ==> i < r.next <= |s|
    decreases |s| - i, 3
  {
    match Skip(s, f, i)
    case None => Fail([])
    case Some(j) =>
      if f.trailingCommas && Peek(s, j) == Ch('}') then Done(j + 1, [EndObject(count)])
      else Members(s, f, j, count)
  }

  /** After the root value: nothing but white space may follow, unless told to stop there. */
  function AfterRoot(s: Bytes, f: Flags, i: nat, events: seq<Event>): Trace
    requires i <= |s|
  {
    if f.stopWhenDone then Accepted(events)
    else
      match Skip(s, f, i)
      case None => Rejected(events)
      case Some(j) => if Peek(s, j) != 0 then Rejected(events) else Accepted(events)
  }

  /** The verdict on a text, and the events up to it. */
  function ParseEvents(s: Bytes, f: Flags): Trace
  {
    match Skip(s, f, 0)
    case None => Rejected([])
    case Some(i) =>
      if Peek(s, i) == 0 then Rejected([])
      else
        match Value(s, f, i)
        case Fail(events) => Rejected(events)
        case Done(j, events) => AfterRoot(s, f, j, events)
  }

  // ---- The table-driven parser ----

  datatype State =
    | Finish | Error | Start
    | ObjectInitial | MemberKey | MemberValue | ObjectFinish
    | ArrayInitial | Element | ArrayFinish
    | SingleValue
    | ElementDelimiter | MemberDelimiter | KeyValueDelimiter

  datatype Token =
    | LeftBracket | RightBracket | LeftCurly | RightCurly | Comma | Colon
    | StringToken | FalseToken | TrueToken | NullToken | NumberToken

  function Tokenize(c: Byte): Token
  {
    if c == Ch('"') then StringToken
    else if c == Ch(',') then Comma
    else if c == Ch(':') then Colon
    else if c == Ch('[') then LeftBracket
    else if c == Ch(']') then RightBracket
    else if c == Ch('f') then FalseToken
    else if c == Ch('n') then NullToken
    else if c == Ch('t') then TrueToken
    else if c == Ch('{') then LeftCurly
    else if c == Ch('}') then RightCurly
    else NumberToken
  }

  predicate StartsScalar(t: Token)
  {
    t.StringToken? || t.FalseToken? || t.TrueToken? || t.NullToken? || t.NumberToken?
  }

  /** The table G: current state and look-ahead token to candidate state. */
  function Predict(state: State, t: Token): State
  {
    match state
    case Start =>
      if t.LeftBracket? then ArrayInitial
      else if t.LeftCurly? then ObjectInitial
      else if StartsScalar(t) then SingleValue
      else Error
    case ObjectInitial =>
      if t.RightCurly? then ObjectFinish else if t.StringToken? then MemberKey else Error
    case MemberKey => if t.Colon? then KeyValueDelimiter else Error
    case MemberValue =>
      if t.RightCurly? then ObjectFinish else if t.Comma? then MemberDelimiter else Error
    case ArrayInitial =>
      if t.LeftBracket? then ArrayInitial
      else if t.RightBracket? then ArrayFinish
      else if t.LeftCurly? then ObjectInitial
      else if StartsScalar(t) then Element
      else Error
    case Element =>
      if t.RightBracket? then ArrayFinish else if t.Comma? then ElementDelimiter else Error
    case ElementDelimiter =>
      if t.LeftBracket? then ArrayInitial
      else if t.RightBracket? then ArrayFinish
      else if t.LeftCurly? then ObjectInitial
      else if StartsScalar(t) then Element
      else Error
    case MemberDelimiter =>
      if t.RightCurly? then ObjectFinish else if t.StringToken? then MemberKey else Error
    case KeyValueDelimiter =>
      if t.LeftBracket? then ArrayInitial
      else if t.LeftCurly? then ObjectInitial
      else if StartsScalar(t) then MemberValue
      else Error
    case _ => Error
  }

  /** The values of the enumeration IterativeParsingState. */
  const STATES: seq<State> :=
    [Finish, Error, Start, ObjectInitial, MemberKey, MemberValue, ObjectFinish, ArrayInitial, Element, ArrayFinish,
     SingleValue, ElementDelimiter, MemberDelimiter, KeyValueDelimiter]

  function Code(state: State): (n: nat)
    ensures n < |STATES| && STATES[n] == state
  {
    match state
    case Finish => 0
    case Error => 1
    case Start => 2
    case ObjectInitial => 3
    case MemberKey => 4
    case MemberValue => 5
    case ObjectFinish => 6
    case ArrayInitial => 7
    case Element => 8
    case ArrayFinish => 9
    case SingleValue => 10
    case ElementDelimiter => 11
    case MemberDelimiter => 12
    case KeyValueDelimiter => 13
  }

  /** A 32-bit number as it lies on the stack, least significant byte first. */
  function Word(n: nat): Bytes
  {
    [n % 256, n / 256 % 256, n / 0x1_0000 % 256, n / 0x100_0000 % 256]
  }

  /** The number on top of the stack. */
  function TopWord(stack: Bytes): (n: nat)
    requires |stack| >= 4
    ensures n < WIDTH
  {
    var a: nat, b: nat, c: nat, d: nat := stack[|stack| - 4], stack[|stack| - 3], stack[|stack| - 2], stack[|stack| - 1];
    a + 256 * b + 0x1_0000 * c + 0x100_0000 * d
  }

  function DropWord(stack: Bytes): Bytes
    requires |stack| >= 4
  {
    stack[..|stack| - 4]
  }

  lemma PushedWord(base: Bytes, n: nat)
    requires n < WIDTH
    ensures TopWord(base + Word(n)) == n && DropWord(base + Word(n)) == base
  {
    var stack := base + Word(n);
    var k := |base|;
    assert stack[k] == n % 256 && stack[k + 1] == n / 256 % 256;
    assert stack[k + 2] == n / 0x1_0000 % 256 && stack[k + 3] == n / 0x100_0000 % 256;
    assert n / 0x1_0000 == n / 256 / 256 && n / 0x100_0000 == n / 0x1_0000 / 256;
  }

  /** One open container: the state to return to, and the members or elements so far. */
  function Frame(back: State, count: nat): Bytes { Word(Code(back)) + Word(count) }

  lemma PushedFrame(base: Bytes, back: State, count: nat)
    requires count < WIDTH
    ensures var stack := base + Frame(back, count);
            && |stack| == |base| + 8
            && TopWord(stack) == count && DropWord(stack) == base + Word(Code(back))
            && TopWord(DropWord(stack)) == Code(back) && DropWord(DropWord(stack)) == base
  {
    hide Word, TopWord, DropWord, Code;
    WordSize(Code(back));
    WordSize(count);
    Associates(base, Word(Code(back)), Word(count));
    PushedWord(base + Word(Code(back)), count);
    PushedWord(base, Code(back));
  }

  lemma WordSize(n: nat)
    ensures |Word(n)| == 4
  {
  }

  /** `stack` is the bytes of `stack_`: frames, and whatever strings have left between them. */
  datatype Config = Config(state: State, stack: Bytes, pos: nat, events: seq<Event>)

  /** The outcome of one token; Stuck is the error state, or a number that is no state. */
  datatype Move = Stuck(events: seq<Event>) | Moved(config: Config)

  /** The state a container returns to when it closes. */
  function Back(src: State): State
  {
    match src
    case ArrayInitial => Element
    case ElementDelimiter => Element
    case KeyValueDelimiter => MemberValue
    case _ => src
  }

  /** What the string of a value or of a name leaves on the stack. */
  function Leaves(events: seq<Event>): Bytes
  {
    if events == [] then []
    else
      var e := events[|events| - 1];
      Leaves(events[..|events| - 1]) + if e.StringEvent? || e.KeyEvent? then Kept(e.str) else []
  }

  function Emit(c: Config, state: State, p: Parsed): Move
  {
    match p
    case Fail(events) => Stuck(c.events + events)
    case Done(j, events) => Moved(Config(state, c.stack + Leaves(events), j, c.events + events))
  }

  /** The outcome of a name. */
  function Name(s: Bytes, f: Flags, i: nat): (r: Parsed)
    requires i < |s|
    ensures r.Done? ==> i < r.next <= |s|
  {
    match StringRest(s, f, i + 1)
    case Bad => Fail([])
    case Good(key, j) => Done(j, [KeyEvent(key)])
  }

  /** The state to go to after a container, for the number that was pushed when it was opened. */
  function Restored(code: nat): State
  {
    if code >= |STATES| then Error else if STATES[code] == Start then Finish else STATES[code]
  }

  /** Close the innermost container; `last` says that its last member is not counted yet. */
  function Close(c: Config, last: bool, curly: bool): Move
  {
    if |c.stack| < 8 then Stuck(c.events)
    else
      var count := if last then Inc(TopWord(c.stack)) else TopWord(c.stack);
      var n := Restored(TopWord(DropWord(c.stack)));
      var events := c.events + [if curly then EndObject(count) else EndArray(count)];
      if n == Error then Stuck(events) else Moved(Config(n, DropWord(DropWord(c.stack)), c.pos + 1, events))
  }

  function CountOne(c: Config, dst: State): Move
  {
    if |c.stack| < 4 then Stuck(c.events)
    else Moved(Config(dst, DropWord(c.stack) + Word(Inc(TopWord(c.stack))), c.pos + 1, c.events))
  }

  /** Advance by one token. */
  function Transit(s: Bytes, f: Flags, c: Config): Move
    requires c.pos <= |s|
  {
    var dst := Predict(c.state, Tokenize(Peek(s, c.pos)));
    match dst
    case ObjectInitial =>
      Moved(Config(dst, c.stack + Frame(Back(c.state), 0), c.pos + 1, c.events + [StartObject]))
    case ArrayInitial =>
      Moved(Config(dst, c.stack + Frame(Back(c.state), 0), c.pos + 1, c.events + [StartArray]))
    case MemberKey => Emit(c, dst, Name(s, f, c.pos))
    case KeyValueDelimiter => Moved(c.(state := dst, pos := c.pos + 1))
    case MemberValue => Emit(c, dst, Value(s, f, c.pos))
    case Element => Emit(c, dst, Value(s, f, c.pos))
    case MemberDelimiter => CountOne(c, dst)
    case ElementDelimiter => CountOne(c, dst)
    case ObjectFinish =>
      if !f.trailingCommas && c.state == MemberDelimiter then Stuck(c.events)
      else Close(c, c.state == MemberValue, true)
    case ArrayFinish =>
      if !f.trailingCommas && c.state == ElementDelimiter then Stuck(c.events)
      else Close(c, c.state == Element, false)
    case SingleValue => Emit(c, Finish, Value(s, f, c.pos))
    case _ => Stuck(c.events)
  }

  lemma TransitAdvances(s: Bytes, f: Flags, c: Config)
    requires c.pos <= |s| && Peek(s, c.pos) != 0
    ensures Transit(s, f, c).Moved? ==> c.pos < Transit(s, f, c).config.pos <= |s|
  {
    hide Word, TopWord, DropWord, Leaves, Restored, StringRest, Leaf;
  }

  /** The loop from the point where it looks at the next token. */
  function Run(s: Bytes, f: Flags, c: Config): Trace
    requires c.pos <= |s|
    decreases |s| - c.pos, 0
  {
    if Peek(s, c.pos) == 0 then (if c.state == Finish then Accepted(c.events) else Rejected(c.events))
    else
      TransitAdvances(s, f, c);
      match Transit(s, f, c)
      case Stuck(events) => Rejected(events)
      case Moved(d) => Resume(s, f, d)
  }

  /** The rest of the loop body: stop if done, or skip to the next token. */
  function Resume(s: Bytes, f: Flags, c: Config): Trace
    requires c.pos <= |s|
    decreases |s| - c.pos, 1
  {
    if f.stopWhenDone && c.state == Finish then Accepted(c.events)
    else
      match Skip(s, f, c.pos)
      case None => Rejected(c.events)
      case Some(j) => Run(s, f, c.(pos := j))
  }

  function IterativeEvents(s: Bytes, f: Flags): Trace
  {
    match Skip(s, f, 0)
    case None => Rejected([])
    case Some(i) => Run(s, f, Config(Start, [], i, []))
  }

  // ---- The table-driven parser simulates recursive descent ----

  /** What the machine does after a sub-parse that started with configuration `c`. */
  function Continue(s: Bytes, f: Flags, c: Config, state: State, stack: Bytes, p: Parsed): Trace
    requires p.Done? ==> p.next <= |s|
  {
    match p
    case Fail(events) => Rejected(c.events + events)
    case Done(j, events) => Resume(s, f, Config(state, stack, j, c.events + events))
  }

  /** States in which a value comes next. */
  predicate WantsValue(state: State)
  {
    state.Start? || state.ArrayInitial? || state.ElementDelimiter? || state.KeyValueDelimiter?
  }

  /** The state after that value. */
  function AfterValue(state: State): State { if state.Start? then Finish else Back(state) }

  /** In an array a closing bracket may come instead of a value. */
  predicate ClosesArray(s: Bytes, f: Flags, c: Config)
  {
    && Peek(s, c.pos) == Ch(']')
    && (c.state.ArrayInitial? || (c.state.ElementDelimiter? && f.trailingCommas))
  }

  predicate ClosesObject(s: Bytes, f: Flags, c: Config)
  {
    && Peek(s, c.pos) == Ch('}')
    && (c.state.ObjectInitial? || (c.state.MemberDelimiter? && f.trailingCommas))
  }

  /** The state after the container with this frame has closed. */
  function Closed(back: State): State { if back == Start then Finish else back }

  /** The frame on top of the stack. */
  predicate Framed(stack: Bytes, base: Bytes, back: State, count: nat)
  {
    stack == base + Frame(back, count) && count < WIDTH && back != Error
  }

  // One token at a time.

  lemma OpenStep(s: Bytes, f: Flags, c: Config)
    requires c.pos < |s| && WantsValue(c.state) && (s[c.pos] == Ch('{') || s[c.pos] == Ch('['))
    ensures var curly := s[c.pos] == Ch('{');
            Run(s, f, c) == Resume(s, f, Config(if curly then ObjectInitial else ArrayInitial,
                                                c.stack + Frame(Back(c.state), 0), c.pos + 1,
                                                c.events + [if curly then StartObject else StartArray]))
  {
    hide Leaf, StringRest, Frame;
    assert Run(s, f, c) == Resume(s, f, Transit(s, f, c).config);
  }

  /** Brief strings leave nothing on the stack. */
  lemma {:induction false} NothingLeft(events: seq<Event>)
    requires AllBrief(events)
    ensures Leaves(events) == []
    decreases |events|
  {
    if events != [] {
      var n := |events| - 1;
      assert events[n] in events && forall e <- events[..n] :: e in events;
      NothingLeft(events[..n]);
    }
  }

  lemma LeafStep(s: Bytes, f: Flags, c: Config)
    requires c.pos <= |s| && WantsValue(c.state) && !ClosesArray(s, f, c)
    requires Peek(s, c.pos) != Ch('{') && Peek(s, c.pos) != Ch('[')
    ensures Run(s, f, c)
            == Continue(s, f, c, AfterValue(c.state), c.stack + Leaves(Value(s, f, c.pos).events), Value(s, f, c.pos))
  {
    hide Leaves, Transit, Close, CountOne, LexNumber, StringRest;
    LeafMove(s, f, c);
    if Peek(s, c.pos) != 0 && Transit(s, f, c).Moved? {
      assert Run(s, f, c) == Resume(s, f, Transit(s, f, c).config);
    }
    EndStep(s, f, c);
    NothingRead(s, f, c.pos);
  }

  lemma NothingRead(s: Bytes, f: Flags, i: nat)
    requires i <= |s|
    requires Peek(s, i) != Ch('{') && Peek(s, i) != Ch('[')
    ensures Peek(s, i) == 0 || !StartsScalar(Tokenize(Peek(s, i))) ==> Value(s, f, i) == Fail([])
  {
  }

  lemma LeafMove(s: Bytes, f: Flags, c: Config)
    requires c.pos <= |s| && WantsValue(c.state) && !ClosesArray(s, f, c)
    requires Peek(s, c.pos) != Ch('{') && Peek(s, c.pos) != Ch('[')
    ensures Transit(s, f, c) == if StartsScalar(Tokenize(Peek(s, c.pos))) then
                                  Emit(c, AfterValue(c.state), Value(s, f, c.pos))
                                else Stuck(c.events)
  {
    hide Leaves, Value, Emit, Close, CountOne, Frame;
  }

  lemma CloseStep(s: Bytes, f: Flags, c: Config, base: Bytes, back: State, count: nat)
    requires c.pos < |s| && Framed(c.stack, base, back, count)
    requires (s[c.pos] == Ch(']') && c.state == Element) || (s[c.pos] == Ch('}') && c.state == MemberValue)
             || ClosesArray(s, f, c) || ClosesObject(s, f, c)
    ensures var n := if c.state == Element || c.state == MemberValue then Inc(count) else count;
            Run(s, f, c) == Resume(s, f, Config(Closed(back), base, c.pos + 1,
                                                c.events + [if s[c.pos] == Ch('}') then EndObject(n) else EndArray(n)]))
  {
    hide Transit, Close, Frame, Value;
    CloseMove(s, f, c);
    CloseFrame(c, c.state == Element || c.state == MemberValue, s[c.pos] == Ch('}'), base, back, count);
    assert Run(s, f, c) == Resume(s, f, Transit(s, f, c).config);
  }

  lemma CloseMove(s: Bytes, f: Flags, c: Config)
    requires c.pos < |s|
    requires (s[c.pos] == Ch(']') && c.state == Element) || (s[c.pos] == Ch('}') && c.state == MemberValue)
             || ClosesArray(s, f, c) || ClosesObject(s, f, c)
    ensures Transit(s, f, c) == Close(c, c.state == Element || c.state == MemberValue, s[c.pos] == Ch('}'))
  {
    hide Value, Emit, Close, CountOne, Frame;
  }

  lemma CloseFrame(c: Config, last: bool, curly: bool, base: Bytes, back: State, count: nat)
    requires Framed(c.stack, base, back, count)
    ensures var n := if last then Inc(count) else count;
            Close(c, last, curly) == Moved(Config(Closed(back), base, c.pos + 1,
                                                  c.events + [if curly then EndObject(n) else EndArray(n)]))
  {
    hide Frame, TopWord, DropWord;
    PushedFrame(base, back, count);
  }

  lemma CommaStep(s: Bytes, f: Flags, c: Config, base: Bytes, back: State, count: nat)
    requires c.pos < |s| && s[c.pos] == Ch(',') && Framed(c.stack, base, back, count)
    requires c.state == Element || c.state == MemberValue
    ensures Run(s, f, c) == Resume(s, f, Config(if c.state == Element then ElementDelimiter else MemberDelimiter,
                                                base + Frame(back, Inc(count)), c.pos + 1, c.events))
  {
    hide Leaf, StringRest, TopWord, DropWord, Word, Code;
    PushedFrame(base, back, count);
    var d := Transit(s, f, c).config;
    Associates(base, Word(Code(back)), Word(Inc(count)));
    assert Run(s, f, c) == Resume(s, f, d);
  }

  lemma ColonStep(s: Bytes, f: Flags, c: Config)
    requires c.pos < |s| && s[c.pos] == Ch(':') && c.state == MemberKey
    ensures Run(s, f, c) == Resume(s, f, Config(KeyValueDelimiter, c.stack, c.pos + 1, c.events))
  {
    hide Leaf, StringRest, Frame;
    assert Run(s, f, c) == Resume(s, f, Transit(s, f, c).config);
  }

  lemma KeyStep(s: Bytes, f: Flags, c: Config)
    requires c.pos <= |s| && (c.state == ObjectInitial || c.state == MemberDelimiter) && !ClosesObject(s, f, c)
    ensures Run(s, f, c)
            == if Peek(s, c.pos) != Ch('"') then Rejected(c.events)
               else Continue(s, f, c, MemberKey, c.stack + Leaves(Name(s, f, c.pos).events), Name(s, f, c.pos))
  {
    hide StringRest, Leaves, Frame;
    if Peek(s, c.pos) != 0 && Transit(s, f, c).Moved? {
      assert Run(s, f, c) == Resume(s, f, Transit(s, f, c).config);
    }
  }

  lemma RejectStep(s: Bytes, f: Flags, c: Config)
    requires c.pos <= |s| && c.state != Finish && Predict(c.state, Tokenize(Peek(s, c.pos))) == Error
    ensures Run(s, f, c) == Rejected(c.events)
  {
    hide Leaf, StringRest;
  }

  lemma SkipStep(s: Bytes, f: Flags, c: Config)
    requires c.pos <= |s| && c.state != Finish
    ensures Resume(s, f, c) == match Skip(s, f, c.pos)
                               case None => Rejected(c.events)
                               case Some(j) => Run(s, f, c.(pos := j))
  {
    hide Leaf, StringRest;
  }

  /** Continuing after two sub-parses is continuing after the second with the first's events. */
  lemma EventsAssociate(s: Bytes, f: Flags, c: Config, events: seq<Event>, state: State, stack: Bytes, p: Parsed)
    requires p.Done? ==> p.next <= |s|
    ensures Continue(s, f, c.(events := c.events + events), state, stack, p)
            == Continue(s, f, c, state, stack, Prefix(events, p))
  {
    assert c.events + events + p.events == c.events + (events + p.events);
  }

  // One construct at a time, by induction on the text that is left.

  lemma {:induction false} RunValue(s: Bytes, f: Flags, c: Config)
    requires c.pos <= |s| && WantsValue(c.state) && !ClosesArray(s, f, c)
    requires AllBrief(Value(s, f, c.pos).events)
    ensures Run(s, f, c) == Continue(s, f, c, AfterValue(c.state), c.stack, Value(s, f, c.pos))
    decreases |s| - c.pos, 1
  {
    hide Leaf, StringRest, Transit, Frame, ObjectBody, ArrayBody, Run, Resume, Leaves, AllBrief;
    var stack, back := c.stack + Frame(Back(c.state), 0), Back(c.state);
    if Peek(s, c.pos) == Ch('{') {
      OpenStep(s, f, c);
      AllBriefAppend([StartObject], ObjectBody(s, f, c.pos + 1).events);
      RunObjectBody(s, f, Config(ObjectInitial, stack, c.pos + 1, c.events + [StartObject]), c.stack, back);
      EventsAssociate(s, f, c, [StartObject], Closed(back), c.stack, ObjectBody(s, f, c.pos + 1));
    } else if Peek(s, c.pos) == Ch('[') {
      OpenStep(s, f, c);
      AllBriefAppend([StartArray], ArrayBody(s, f, c.pos + 1).events);
      RunArrayBody(s, f, Config(ArrayInitial, stack, c.pos + 1, c.events + [StartArray]), c.stack, back);
      EventsAssociate(s, f, c, [StartArray], Closed(back), c.stack, ArrayBody(s, f, c.pos + 1));
    } else {
      LeafStep(s, f, c);
      NothingLeft(Value(s, f, c.pos).events);
      assert c.stack + [] == c.stack;
    }
  }

  lemma {:induction false} RunObjectBody(s: Bytes, f: Flags, c: Config, base: Bytes, back: State)
    requires c.pos <= |s| && c.state == ObjectInitial && Framed(c.stack, base, back, 0)
    requires AllBrief(ObjectBody(s, f, c.pos).events)
    ensures Resume(s, f, c) == Continue(s, f, c, Closed(back), base, ObjectBody(s, f, c.pos))
    decreases |s| - c.pos, 3
  {
    hide Leaf, StringRest, Transit, Frame;
    SkipStep(s, f, c);
    var skipped := Skip(s, f, c.pos);
    if skipped.Some? {
      var e := c.(pos := skipped.value);
      if Peek(s, e.pos) == Ch('}') {
        CloseStep(s, f, e, base, back, 0);
      } else {
        RunMembers(s, f, e, base, back, 0);
      }
    }
  }

  lemma {:induction false} RunArrayBody(s: Bytes, f: Flags, c: Config, base: Bytes, back: State)
    requires c.pos <= |s| && c.state == ArrayInitial && Framed(c.stack, base, back, 0)
    requires AllBrief(ArrayBody(s, f, c.pos).events)
    ensures Resume(s, f, c) == Continue(s, f, c, Closed(back), base, ArrayBody(s, f, c.pos))
    decreases |s| - c.pos, 3
  {
    hide Leaf, StringRest, Transit, Frame;
    SkipStep(s, f, c);
    var skipped := Skip(s, f, c.pos);
    if skipped.Some? {
      var e := c.(pos := skipped.value);
      if Peek(s, e.pos) == Ch(']') {
        CloseStep(s, f, e, base, back, 0);
      } else {
        RunElements(s, f, e, base, back, 0);
      }
    }
  }

  lemma {:induction false} RunElements(s: Bytes, f: Flags, c: Config, base: Bytes, back: State, count: nat)
    requires c.pos <= |s| && (c.state == ArrayInitial || c.state == ElementDelimiter) && !ClosesArray(s, f, c)
    requires Framed(c.stack, base, back, count)
    requires AllBrief(Elements(s, f, c.pos, count).events)
    ensures Run(s, f, c) == Continue(s, f, c, Closed(back), base, Elements(s, f, c.pos, count))
    decreases |s| - c.pos, 2
  {
    hide Leaf, StringRest, Transit, Frame;
    var v := Value(s, f, c.pos);
    if v.Done? {
      AllBriefAppend(v.events, AfterElement(s, f, v.next, Inc(count)).events);
    }
    RunValue(s, f, c);
    if v.Done? {
      RunAfterElement(s, f, Config(Element, c.stack, v.next, c.events + v.events), base, back, count);
      EventsAssociate(s, f, c, v.events, Closed(back), base, AfterElement(s, f, v.next, Inc(count)));
    }
  }

  lemma {:induction false} RunAfterElement(s: Bytes, f: Flags, c: Config, base: Bytes, back: State, count: nat)
    requires c.pos <= |s| && c.state == Element && Framed(c.stack, base, back, count)
    requires AllBrief(AfterElement(s, f, c.pos, Inc(count)).events)
    ensures Resume(s, f, c) == Continue(s, f, c, Closed(back), base, AfterElement(s, f, c.pos, Inc(count)))
    decreases |s| - c.pos, 3
  {
    hide Leaf, StringRest, Transit, Skip, Run, ElementAfterComma, Value;
    SkipStep(s, f, c);
    var skipped := Skip(s, f, c.pos);
    if skipped.Some? {
      var e := c.(pos := skipped.value);
      if Peek(s, e.pos) == Ch(']') {
        CloseStep(s, f, e, base, back, count);
      } else if Peek(s, e.pos) == Ch(',') {
        CommaStep(s, f, e, base, back, count);
        var next := Config(ElementDelimiter, base + Frame(back, Inc(count)), e.pos + 1, c.events);
        RunElementAfterComma(s, f, next, base, back, Inc(count));
      } else {
        RejectStep(s, f, e);
      }
    }
  }

  lemma {:induction false} RunElementAfterComma(s: Bytes, f: Flags, c: Config, base: Bytes, back: State, count: nat)
    requires c.pos <= |s| && c.state == ElementDelimiter && Framed(c.stack, base, back, count)
    requires AllBrief(ElementAfterComma(s, f, c.pos, count).events)
    ensures Resume(s, f, c) == Continue(s, f, c, Closed(back), base, ElementAfterComma(s, f, c.pos, count))
    decreases |s| - c.pos, 3
  {
    hide Leaf, StringRest, Transit, Frame;
    SkipStep(s, f, c);
    var skipped := Skip(s, f, c.pos);
    if skipped.Some? {
      var e := c.(pos := skipped.value);
      if ClosesArray(s, f, e) {
        CloseStep(s, f, e, base, back, count);
      } else {
        RunElements(s, f, e, base, back, count);
      }
    }
  }

  lemma {:induction false} RunMembers(s: Bytes, f: Flags, c: Config, base: Bytes, back: State, count: nat)
    requires c.pos <= |s| && (c.state == ObjectInitial || c.state == MemberDelimiter) && !ClosesObject(s, f, c)
    requires Framed(c.stack, base, back, count)
    requires AllBrief(Members(s, f, c.pos, count).events)
    ensures Run(s, f, c) == Continue(s, f, c, Closed(back), base, Members(s, f, c.pos, count))
    decreases |s| - c.pos, 2
  {
    hide Leaf, StringRest, Transit, Frame;
    KeyStep(s, f, c);
    if Peek(s, c.pos) == Ch('"') {
      var key := StringRest(s, f, c.pos + 1);
      if key.Good? {
        var k := [KeyEvent(key.value)];
        AllBriefAppend(k, AfterKey(s, f, key.next, count).events);
        NothingLeft(k);
        assert c.stack + [] == c.stack;
        RunAfterKey(s, f, Config(MemberKey, c.stack, key.next, c.events + k), base, back, count);
        EventsAssociate(s, f, c, k, Closed(back), base, AfterKey(s, f, key.next, count));
      }
    }
  }

  lemma {:induction false} RunAfterKey(s: Bytes, f: Flags, c: Config, base: Bytes, back: State, count: nat)
    requires c.pos <= |s| && c.state == MemberKey && Framed(c.stack, base, back, count)
    requires AllBrief(AfterKey(s, f, c.pos, count).events)
    ensures Resume(s, f, c) == Continue(s, f, c, Closed(back), base, AfterKey(s, f, c.pos, count))
    decreases |s| - c.pos, 2
  {
    hide Leaf, StringRest, Transit, Skip, Run, AfterColon, Value;
    SkipStep(s, f, c);
    var skipped := Skip(s, f, c.pos);
    if skipped.Some? {
      var e := c.(pos := skipped.value);
      if Peek(s, e.pos) == Ch(':') {
        ColonStep(s, f, e);
        RunAfterColon(s, f, Config(KeyValueDelimiter, c.stack, e.pos + 1, c.events), base, back, count);
      } else {
        RejectStep(s, f, e);
      }
    }
  }

  lemma {:induction false} RunAfterColon(s: Bytes, f: Flags, c: Config, base: Bytes, back: State, count: nat)
    requires c.pos <= |s| && c.state == KeyValueDelimiter && Framed(c.stack, base, back, count)
    requires AllBrief(AfterColon(s, f, c.pos, count).events)
    ensures Resume(s, f, c) == Continue(s, f, c, Closed(back), base, AfterColon(s, f, c.pos, count))
    decreases |s| - c.pos, 2
  {
    hide Leaf, StringRest, Transit, Frame;
    SkipStep(s, f, c);
    var skipped := Skip(s, f, c.pos);
    if skipped.Some? {
      var e := c.(pos := skipped.value);
      var v := Value(s, f, e.pos);
      if v.Done? {
        AllBriefAppend(v.events, AfterMember(s, f, v.next, Inc(count)).events);
      }
      RunValue(s, f, e);
      if v.Done? {
        RunAfterMember(s, f, Config(MemberValue, c.stack, v.next, c.events + v.events), base, back, count);
        EventsAssociate(s, f, c, v.events, Closed(back), base, AfterMember(s, f, v.next, Inc(count)));
      }
    }
  }

  lemma {:induction false} RunAfterMember(s: Bytes, f: Flags, c: Config, base: Bytes, back: State, count: nat)
    requires c.pos <= |s| && c.state == MemberValue && Framed(c.stack, base, back, count)
    requires AllBrief(AfterMember(s, f, c.pos, Inc(count)).events)
    ensures Resume(s, f, c) == Continue(s, f, c, Closed(back), base, AfterMember(s, f, c.pos, Inc(count)))
    decreases |s| - c.pos, 3
  {
    hide Leaf, StringRest, Transit, Skip, Run, MemberAfterComma, Value;
    SkipStep(s, f, c);
    var skipped := Skip(s, f, c.pos);
    if skipped.Some? {
      var e := c.(pos := skipped.value);
      if Peek(s, e.pos) == Ch('}') {
        CloseStep(s, f, e, base, back, count);
      } else if Peek(s, e.pos) == Ch(',') {
        CommaStep(s, f, e, base, back, count);
        var next := Config(MemberDelimiter, base + Frame(back, Inc(count)), e.pos + 1, c.events);
        RunMemberAfterComma(s, f, next, base, back, Inc(count));
      } else {
        RejectStep(s, f, e);
      }
    }
  }

  lemma {:induction false} RunMemberAfterComma(s: Bytes, f: Flags, c: Config, base: Bytes, back: State, count: nat)
    requires c.pos <= |s| && c.state == MemberDelimiter && Framed(c.stack, base, back, count)
    requires AllBrief(MemberAfterComma(s, f, c.pos, count).events)
    ensures Resume(s, f, c) == Continue(s, f, c, Closed(back), base, MemberAfterComma(s, f, c.pos, count))
    decreases |s| - c.pos, 3
  {
    hide Leaf, StringRest, Transit, Frame;
    SkipStep(s, f, c);
    var skipped := Skip(s, f, c.pos);
    if skipped.Some? {
      var e := c.(pos := skipped.value);
      if ClosesObject(s, f, e) {
        CloseStep(s, f, e, base, back, count);
      } else {
        RunMembers(s, f, e, base, back, count);
      }
    }
  }

  /** For every text and every choice of flags, the two parsers agree: they give the same
      verdict, and emit the same events with the same counts, also before a rejection.  This is
      so if no string that is read has 2^32 - 1 or more bytes, or if the text is a string. */
  lemma ParsersAgree(s: Bytes, f: Flags)
    requires AllBrief(ParseEvents(s, f).events) || |ParseEvents(s, f).events| == 1
    ensures IterativeEvents(s, f) == ParseEvents(s, f)
  {
    hide Leaf, StringRest, Transit, Value, Run;
    var skipped := Skip(s, f, 0);
    if skipped.Some? {
      var c, v := Config(Start, [], skipped.value, []), Value(s, f, skipped.value);
      EndStep(s, f, c);
      if Peek(s, c.pos) == 0 {
        return;
      }
      var stack := RunRoot(s, f, c);
      assert [] + v.events == v.events;
      if v.Done? {
        var again := Skip(s, f, v.next);
        if !f.stopWhenDone && again.Some? {
          EndStep(s, f, Config(Finish, stack, again.value, v.events));
        }
      }
    }
  }

  /** The root value; what it leaves on the stack is not looked at any more. */
  lemma RunRoot(s: Bytes, f: Flags, c: Config) returns (stack: Bytes)
    requires c.pos <= |s| && c.state == Start
    requires AllBrief(Value(s, f, c.pos).events) || |Value(s, f, c.pos).events| == 1
    ensures Run(s, f, c) == Continue(s, f, c, Finish, stack, Value(s, f, c.pos))
  {
    hide Leaf, Run;
    var events := Value(s, f, c.pos).events;
    if AllBrief(events) {
      RunValue(s, f, c);
      stack := c.stack;
    } else {
      assert !AllBrief(events) && events[0] != StartArray && events[0] != StartObject by {
        assert events == [events[0]];
      }
      LeafStep(s, f, c);
      stack := c.stack + Leaves(events);
    }
  }

  /** After the end of the text, or of the root value. */
  lemma EndStep(s: Bytes, f: Flags, c: Config)
    requires c.pos <= |s|
    ensures Peek(s, c.pos) == 0 || c.state == Finish ==>
              Run(s, f, c) == if Peek(s, c.pos) == 0 && c.state == Finish then Accepted(c.events) else Rejected(c.events)
  {
    hide Leaf, StringRest, Frame;
  }
}
