/**
 The reader object: the loops of both JSON parsers, with the stack that they share with the
 strings they read.
 */
module JsonReaderObject {
  import opened ByteStrings
  import opened JsonLexer
  import opened JsonReader

  /** The same outcome with the strings as the handler gets them. */
  function Tell(p: Parsed): Parsed
  {
    match p
    case Fail(events) => Fail(Told(events))
    case Done(j, events) => Done(j, Told(events))
  }

  lemma TellChain(a: seq<Event>, b: seq<Event>, p: Parsed)
    ensures Prefix(a, Tell(Prefix(b, p))) == Prefix(a + Told(b), Tell(p))
  {
    hide Told;
    ToldAppend(b, p.events);
    Associates(a, Told(b), Told(p.events));
  }

  lemma LeavesOne(e: Event)
    ensures Leaves([e]) == if e.StringEvent? || e.KeyEvent? then Kept(e.str) else []
  {
    assert [e][..0] == [];
  }

  /** The parser state that the source updates in place.  The handler accepts every call and
      is the list of those it got. */
  class Reader {
    const s: Bytes
    const f: Flags
    var pos: nat
    var stack: Bytes
    var failed: bool
    var events: seq<Event>

    constructor (s: Bytes, f: Flags)
      ensures this.s == s && this.f == f && Fresh()
    {
      this.s, this.f, pos, stack, failed, events := s, f, 0, [], false, [];
    }

    predicate Fresh()
      reads this
    {
      pos == 0 && stack == [] && !failed && events == []
    }

    /** The reader is where `p` says, with exactly those events on the handler. */
    ghost predicate At(p: Parsed)
      reads this
    {
      events == p.events && failed == p.Fail? && (p.Done? ==> pos == p.next)
    }

    /** The parse has ended as `t` says. */
    ghost predicate Ended(t: Trace)
      reads this
    {
      events == Told(t.events) && failed == t.Rejected? && stack == []
    }

    method SkipWhitespaceAndComments()
      requires pos <= |s| && !failed
      modifies this`pos, this`failed
      ensures match Skip(s, f, old(pos))
              case None => failed
              case Some(j) => !failed && pos == j
    {
      match Skip(s, f, pos)
      case None => failed := true;
      case Some(j) => pos := j;
    }

    /** A string goes onto the stack with its terminator, and as many bytes as the 32-bit length
        counts are popped again; None if that is none. */
    method PopString(str: Bytes) returns (popped: Option<Bytes>)
      modifies this`stack
      ensures stack == old(stack) + Kept(str)
      ensures popped == if PopLength(str) == 0 then None else Some(str[|Kept(str)|..])
    {
      hide Kept, PopLength;
      PoppedString(stack, str);
      var length := (|str| + 1) % WIDTH;
      stack := stack + str + [0];
      var top := |stack| - length;
      popped := if length == 0 then None else Some(stack[top..top + length - 1]);
      stack := stack[..top];
    }

    method ReadString(isKey: bool)
      requires pos < |s| && s[pos] == Ch('"') && !failed
      modifies this
      ensures match StringRest(s, f, old(pos) + 1)
              case Bad => failed && events == old(events)
              case Good(str, j) =>
                && !failed && pos == j && stack == old(stack) + Kept(str)
                && events == old(events) + [Handed(if isKey then KeyEvent(str) else StringEvent(str))]
    {
      hide Kept, PopLength, StringRest;
      var r := ParseString(s, f, pos + 1);
      if r.Bad? {
        failed := true;
        return;
      }
      pos := r.next;
      var popped := PopString(r.value);
      match popped
      case None => events := events + [StrayEvent];
      case Some(str) => events := events + [if isKey then KeyEvent(str) else StringEvent(str)];
    }

    method ParseValue()
      requires pos <= |s| && !failed
      modifies this
      ensures At(Prefix(old(events), Tell(Value(s, f, old(pos)))))
      ensures Peek(s, old(pos)) != Ch('{') && Peek(s, old(pos)) != Ch('[') && !failed ==>
                stack == old(stack) + Leaves(Value(s, f, old(pos)).events)
      decreases |s| - pos, 1
    {
      if Peek(s, pos) == Ch('{') {
        ParseObject();
      } else if Peek(s, pos) == Ch('[') {
        ParseArray();
      } else {
        ParseLeaf();
      }
    }

    /** Null, true, false, a string or a number. */
    method ParseLeaf()
      requires pos <= |s| && !failed && Peek(s, pos) != Ch('{') && Peek(s, pos) != Ch('[')
      modifies this
      ensures At(Prefix(old(events), Tell(Value(s, f, old(pos)))))
      ensures !failed ==> stack == old(stack) + Leaves(Value(s, f, old(pos)).events)
    {
      hide LexNumber, StringRest, Kept, Leaves;
      ghost var v := Value(s, f, pos);
      LeafEvents(s, f, pos);
      if Peek(s, pos) == Ch('"') {
        ReadString(false);
      } else {
        match Leaf(s, f, pos)
        case Fail(_) => failed := true;
        case Done(j, leaf) => pos, events := j, events + leaf;
      }
      assert old(events) + [] == old(events) && old(stack) + [] == old(stack);
    }

    /** The end of the loop body of ParseArray: close, or go to the next element. */
    method FinishElement(count: nat) returns (more: bool)
      requires pos <= |s| && !failed
      modifies this`pos, this`failed, this`events
      ensures !more ==> At(Prefix(old(events), Tell(AfterElement(s, f, old(pos), count))))
      ensures more ==> !failed && events == old(events) && old(pos) < pos <= |s|
      ensures more ==> AfterElement(s, f, old(pos), count) == Elements(s, f, pos, count)
    {
      hide Leaf, StringRest, Elements, Told;
      Plain(EndArray(count));
      assert events + [] == events;
      more := false;
      SkipWhitespaceAndComments();
      if failed {
        return;
      }
      if Peek(s, pos) == Ch(']') {
        pos, events := pos + 1, events + [EndArray(count)];
      } else if Peek(s, pos) != Ch(',') {
        failed := true;
      } else {
        pos := pos + 1;
        SkipWhitespaceAndComments();
        if failed {
          return;
        }
        if f.trailingCommas && Peek(s, pos) == Ch(']') {
          pos, events := pos + 1, events + [EndArray(count)];
        } else {
          more := true;
        }
      }
    }

    method ParseArray()
      requires pos < |s| && s[pos] == Ch('[') && !failed
      modifies this
      ensures At(Prefix(old(events), Tell(Value(s, f, old(pos)))))
      decreases |s| - pos, 0
    {
      hide Leaf, StringRest, Told;
      Plain(StartArray);
      Plain(EndArray(0));
      ghost var goal := Prefix(events, Tell(Value(s, f, pos)));
      TellChain(events, [StartArray], ArrayBody(s, f, pos + 1));
      pos, events := pos + 1, events + [StartArray];
      assert events + [] == events;
      SkipWhitespaceAndComments();
      if failed {
        return;
      }
      if Peek(s, pos) == Ch(']') {
        pos, events := pos + 1, events + [EndArray(0)];
        return;
      }
      var elementCount, more := 0, true;
      while more
        invariant more ==> !failed && old(pos) < pos <= |s|
        invariant more ==> goal == Prefix(events, Tell(Elements(s, f, pos, elementCount)))
        invariant !more ==> At(goal)
        decreases more, |s| - pos
      {
        ghost var before, v := events, Value(s, f, pos);
        ParseValue();
        if failed {
          return;
        }
        TellChain(before, v.events, AfterElement(s, f, pos, Inc(elementCount)));
        elementCount := Inc(elementCount);
        more := FinishElement(elementCount);
      }
    }

    /** The loop body of ParseObject after the key: a colon and a value. */
    method ParseMemberValue(ghost count: nat) returns (ghost member: seq<Event>)
      requires pos <= |s| && !failed
      modifies this
      ensures failed ==> At(Prefix(old(events), Tell(AfterKey(s, f, old(pos), count))))
      ensures !failed ==> old(pos) < pos <= |s| && events == old(events) + Told(member)
      ensures !failed ==> AfterKey(s, f, old(pos), count) == Prefix(member, AfterMember(s, f, pos, Inc(count)))
      decreases |s| - pos, 2
    {
      hide Leaf, StringRest, AfterMember, Told;
      member := [];
      Nothing(events);
      SkipWhitespaceAndComments();
      if failed {
        return;
      }
      if Peek(s, pos) != Ch(':') {
        failed := true;
        return;
      }
      pos := pos + 1;
      assert AfterKey(s, f, old(pos), count) == AfterColon(s, f, pos, count);
      SkipWhitespaceAndComments();
      if failed {
        return;
      }
      ghost var v := Value(s, f, pos);
      ParseValue();
      if !failed {
        member := v.events;
      }
    }

    method ParseMember(ghost count: nat) returns (ghost member: seq<Event>)
      requires pos <= |s| && !failed
      modifies this
      ensures failed ==> At(Prefix(old(events), Tell(Members(s, f, old(pos), count))))
      ensures !failed ==> old(pos) < pos <= |s| && events == old(events) + Told(member)
      ensures !failed ==> Members(s, f, old(pos), count) == Prefix(member, AfterMember(s, f, pos, Inc(count)))
      decreases |s| - pos, 3
    {
      hide Leaf, StringRest, AfterMember, AfterKey, Told, Handed, Kept;
      member := [];
      Nothing(events);
      if Peek(s, pos) != Ch('"') {
        failed := true;
        return;
      }
      ghost var key := StringRest(s, f, pos + 1);
      ReadString(true);
      if failed {
        return;
      }
      ghost var k := [KeyEvent(key.value)];
      ToldOne(k[0]);
      TellChain(old(events), k, AfterKey(s, f, pos, count));
      ghost var value := ParseMemberValue(count);
      if !failed {
        member := k + value;
        PrefixChain(k, value, AfterMember(s, f, pos, Inc(count)));
        ToldAppend(k, value);
        assert old(events) + Told(k) + Told(value) == old(events) + Told(member);
      }
    }

    /** The end of the loop body of ParseObject: close, or go to the next member. */
    method FinishMember(count: nat) returns (more: bool)
      requires pos <= |s| && !failed
      modifies this`pos, this`failed, this`events
      ensures !more ==> At(Prefix(old(events), Tell(AfterMember(s, f, old(pos), count))))
      ensures more ==> !failed && events == old(events) && old(pos) < pos <= |s|
      ensures more ==> AfterMember(s, f, old(pos), count) == Members(s, f, pos, count)
    {
      hide Leaf, StringRest, Members, Told;
      Plain(EndObject(count));
      assert events + [] == events;
      more := false;
      SkipWhitespaceAndComments();
      if failed {
        return;
      }
      if Peek(s, pos) == Ch('}') {
        pos, events := pos + 1, events + [EndObject(count)];
      } else if Peek(s, pos) != Ch(',') {
        failed := true;
      } else {
        pos := pos + 1;
        SkipWhitespaceAndComments();
        if failed {
          return;
        }
        if f.trailingCommas && Peek(s, pos) == Ch('}') {
          pos, events := pos + 1, events + [EndObject(count)];
        } else {
          more := true;
        }
      }
    }

    method ParseObject()
      requires pos < |s| && s[pos] == Ch('{') && !failed
      modifies this
      ensures At(Prefix(old(events), Tell(Value(s, f, old(pos)))))
      decreases |s| - pos, 0
    {
      hide Leaf, StringRest, Told;
      Plain(StartObject);
      Plain(EndObject(0));
      ghost var goal := Prefix(events, Tell(Value(s, f, pos)));
      TellChain(events, [StartObject], ObjectBody(s, f, pos + 1));
      pos, events := pos + 1, events + [StartObject];
      assert events + [] == events;
      SkipWhitespaceAndComments();
      if failed {
        return;
      }
      if Peek(s, pos) == Ch('}') {
        pos, events := pos + 1, events + [EndObject(0)];
        return;
      }
      var memberCount, more := 0, true;
      while more
        invariant more ==> !failed && old(pos) < pos <= |s|
        invariant more ==> goal == Prefix(events, Tell(Members(s, f, pos, memberCount)))
        invariant !more ==> At(goal)
        decreases more, |s| - pos
      {
        ghost var before := events;
        ghost var member := ParseMember(memberCount);
        if failed {
          return;
        }
        TellChain(before, member, AfterMember(s, f, pos, Inc(memberCount)));
        memberCount := Inc(memberCount);
        more := FinishMember(memberCount);
      }
    }

    /** Parse without kParseIterativeFlag.  The stack is cleared on exit. */
    method Parse()
      requires Fresh()
      modifies this
      ensures Ended(ParseEvents(s, f))
    {
      hide Value, Told;
      Nothing([]);
      SkipWhitespaceAndComments();
      if failed {
        return;
      }
      if Peek(s, pos) == 0 {
        failed := true;
        return;
      }
      ghost var v := Value(s, f, pos);
      ParseValue();
      assert [] + Told(v.events) == Told(v.events);
      stack := [];
      if failed || f.stopWhenDone {
        return;
      }
      SkipWhitespaceAndComments();
      if !failed && Peek(s, pos) != 0 {
        failed := true;
      }
    }

    // The table-driven parser.  `before` and `read` are the events on the handler, with the
    // strings as they were read.

    /** The reader has moved, or is stuck, as `m` says. */
    ghost predicate Went(m: Move, n: State, read: seq<Event>)
      reads this
    {
      && events == Told(read)
      && match m
         case Stuck(all) => n == Error && read == all
         case Moved(d) => !failed && n != Error && d == Config(n, stack, pos, read)
    }

    method OpenContainer(src: State, curly: bool, ghost before: seq<Event>) returns (ghost read: seq<Event>)
      requires pos < |s| && !failed && events == Told(before)
      modifies this
      ensures !failed && pos == old(pos) + 1 && stack == old(stack) + Frame(Back(src), 0)
      ensures read == before + [if curly then StartObject else StartArray] && events == Told(read)
    {
      hide Told, Word, Code;
      var n :=
        if src == ArrayInitial || src == ElementDelimiter then Element
        else if src == KeyValueDelimiter then MemberValue
        else src;
      Associates(stack, Word(Code(n)), Word(0));
      stack := stack + Word(Code(n));
      stack := stack + Word(0);
      var e := if curly then StartObject else StartArray;
      Plain(e);
      ToldAppend(before, [e]);
      pos, events, read := pos + 1, events + [e], before + [e];
    }

    /** ParseValue on a token that opens no container. */
    method ParseScalar(dst: State, ghost before: seq<Event>) returns (n: State, ghost read: seq<Event>)
      requires pos < |s| && !failed && events == Told(before) && dst != Error
      requires s[pos] != Ch('{') && s[pos] != Ch('[')
      modifies this
      ensures Went(Emit(Config(dst, old(stack), old(pos), before), dst, Value(s, f, old(pos))), n, read)
    {
      hide Told, Value, Leaves;
      ghost var v := Value(s, f, pos);
      ParseValue();
      ToldAppend(before, v.events);
      n, read := if failed then Error else dst, before + v.events;
    }

    method ParseName(dst: State, ghost before: seq<Event>) returns (n: State, ghost read: seq<Event>)
      requires pos < |s| && !failed && events == Told(before) && dst != Error && s[pos] == Ch('"')
      modifies this
      ensures Went(Emit(Config(dst, old(stack), old(pos), before), dst, Name(s, f, old(pos))), n, read)
    {
      hide Told, Leaves, Handed, Kept, StringRest;
      ghost var name := Name(s, f, pos);
      NameEvents(s, f, pos);
      ReadString(true);
      ToldAppend(before, name.events);
      assert old(events) + [] == old(events);
      n, read := if failed then Error else dst, before + name.events;
    }

    /** A comma: the number on top of the stack is one more. */
    method CountMember(dst: State, ghost before: seq<Event>) returns (n: State)
      requires pos < |s| && !failed && events == Told(before) && dst != Error
      modifies this
      ensures Went(CountOne(Config(dst, old(stack), old(pos), before), dst), n, before)
    {
      hide Told, TopWord, DropWord, Word;
      if |stack| < 4 {
        return Error;
      }
      stack, pos := DropWord(stack) + Word((TopWord(stack) + 1) % WIDTH), pos + 1;
      return dst;
    }

    method RestoreState(code: nat) returns (n: State)
      ensures n == Restored(code)
    {
      n := if code < |STATES| then STATES[code] else Error;
      if n == Start {
        n := Finish;
      }
    }

    /** A closing bracket or brace: count and state are popped. */
    method CloseContainer(last: bool, curly: bool, ghost before: seq<Event>) returns (n: State, ghost read: seq<Event>)
      requires pos < |s| && !failed && events == Told(before)
      modifies this
      ensures Went(Close(Config(Start, old(stack), old(pos), before), last, curly), n, read)
    {
      hide Told, TopWord, DropWord, Handed, Restored;
      read := before;
      if |stack| < 8 {
        return Error, read;
      }
      WordsApart(stack);
      var c := TopWord(stack);
      stack := DropWord(stack);
      if last {
        c := (c + 1) % WIDTH;
      }
      n := RestoreState(TopWord(stack));
      stack := DropWord(stack);
      var e := if curly then EndObject(c) else EndArray(c);
      Plain(e);
      ToldAppend(before, [e]);
      pos, events, read := pos + 1, events + [e], before + [e];
    }

    /** One token, from state `src`. */
    method Advance(src: State, ghost before: seq<Event>) returns (n: State, ghost read: seq<Event>)
      requires pos < |s| && !failed && events == Told(before)
      modifies this
      ensures Went(Transit(s, f, Config(src, old(stack), old(pos), before)), n, read)
    {
      hide Leaf, StringRest, Told, Leaves, TopWord, DropWord, Word, Restored, Frame, Value;
      read := before;
      var dst := Predict(src, Tokenize(s[pos]));
      match dst {
        case ObjectInitial =>
          read := OpenContainer(src, true, before);
          n := dst;
        case ArrayInitial =>
          read := OpenContainer(src, false, before);
          n := dst;
        case MemberKey =>
          n, read := ParseName(dst, before);
        case KeyValueDelimiter =>
          pos, n := pos + 1, dst;
        case MemberValue =>
          n, read := ParseScalar(dst, before);
        case Element =>
          n, read := ParseScalar(dst, before);
        case MemberDelimiter =>
          n := CountMember(dst, before);
        case ElementDelimiter =>
          n := CountMember(dst, before);
        case ObjectFinish =>
          if !f.trailingCommas && src == MemberDelimiter {
            n := Error;
          } else {
            n, read := CloseContainer(src == MemberValue, true, before);
          }
        case ArrayFinish =>
          if !f.trailingCommas && src == ElementDelimiter {
            n := Error;
          } else {
            n, read := CloseContainer(src == Element, false, before);
          }
        case SingleValue =>
          n, read := ParseScalar(Finish, before);
        case _ =>
          n := Error;
      }
    }

    /** Parse with kParseIterativeFlag.  For brief strings the outcome is that of Parse. */
    method IterativeParse()
      requires Fresh()
      modifies this
      ensures Ended(IterativeEvents(s, f))
      ensures AllBrief(ParseEvents(s, f).events) ==> Ended(ParseEvents(s, f))
    {
      hide Transit, Told, ParseEvents;
      if AllBrief(ParseEvents(s, f).events) {
        ParsersAgree(s, f);
      }
      ghost var read: seq<Event> := [];
      Nothing([]);
      var state := Start;
      SkipWhitespaceAndComments();
      if failed {
        return;
      }
      while Peek(s, pos) != 0
        invariant !failed && pos <= |s| && events == Told(read)
        invariant IterativeEvents(s, f) == Run(s, f, Config(state, stack, pos, read))
        decreases |s| - pos
      {
        TransitAdvances(s, f, Config(state, stack, pos, read));
        var n;
        n, read := Advance(state, read);
        if n == Error {
          failed, stack := true, [];
          return;
        }
        state := n;
        if f.stopWhenDone && state == Finish {
          stack := [];
          return;
        }
        SkipWhitespaceAndComments();
        if failed {
          stack := [];
          return;
        }
      }
      if state != Finish {
        failed := true;
      }
      stack := [];
    }
  }

  lemma WordsApart(stack: Bytes)
    requires |stack| >= 8
    ensures |DropWord(stack)| >= 4
  {
  }

  /** What a name emits and leaves. */
  lemma NameEvents(s: Bytes, f: Flags, i: nat)
    requires i < |s|
    ensures match StringRest(s, f, i + 1)
            case Bad => Told(Name(s, f, i).events) == []
            case Good(key, j) =>
              && Told(Name(s, f, i).events) == [Handed(KeyEvent(key))]
              && Leaves(Name(s, f, i).events) == Kept(key)
  {
    hide StringRest, Handed, Kept;
    var key := StringRest(s, f, i + 1);
    if key.Good? {
      ToldOne(KeyEvent(key.value));
      LeavesOne(KeyEvent(key.value));
    }
  }

  /** What is popped off the stack, and what is not. */
  lemma PoppedString(base: Bytes, str: Bytes)
    ensures var stack, n := base + str + [0], (|str| + 1) % WIDTH;
            && n == PopLength(str) && n + |Kept(str)| == |str| + 1
            && stack[..|stack| - n] == base + Kept(str)
            && (n != 0 ==> stack[|stack| - n..|stack| - 1] == str[|Kept(str)|..])
  {
    var stack, all, k := base + str + [0], str + [0], |Kept(str)|;
    assert stack == base + all;
    assert stack[..|base| + k] == base + all[..k];
    if k <= |str| {
      assert stack[|base| + k..|stack| - 1] == str[k..];
    }
  }

  /** Structural events are told as they are. */
  lemma Plain(e: Event)
    requires !e.StringEvent? && !e.KeyEvent?
    ensures Told([e]) == [e] && Told([]) == []
  {
    ToldOne(e);
  }

  lemma Nothing(events: seq<Event>)
    ensures Told([]) == [] && events + [] == events
  {
  }

  /** What a leaf emits and leaves. */
  lemma LeafEvents(s: Bytes, f: Flags, i: nat)
    requires i <= |s| && Peek(s, i) != Ch('{') && Peek(s, i) != Ch('[')
    ensures var v := Value(s, f, i);
            && v == Leaf(s, f, i)
            && (v.Fail? ==> v == Fail([]))
            && (v.Done? ==> |v.events| == 1 && Told(v.events) == [Handed(v.events[0])]
                            && (v.events[0].StringEvent? <==> Peek(s, i) == Ch('"')) && !v.events[0].KeyEvent?
                            && Leaves(v.events) == if v.events[0].StringEvent? then Kept(v.events[0].str) else [])
  {
    hide LexInteger, StringRest, Told, Leaves, Handed, Kept;
    var v := Leaf(s, f, i);
    if v.Done? {
      assert v.events == [v.events[0]];
      ToldOne(v.events[0]);
      LeavesOne(v.events[0]);
    }
  }

  lemma PrefixChain(a: seq<Event>, b: seq<Event>, p: Parsed)
    ensures Prefix(a, Prefix(b, p)) == Prefix(a + b, p)
  {
    Associates(a, b, p.events);
  }
}
