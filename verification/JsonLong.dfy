/**
 A string whose length does not fit 32 bits, inside an array: the recursive parser accepts the
 text, the document is not its tree, and the table-driven parser takes bytes of the string for
 a frame.
 */
module JsonLong {
  import opened ByteStrings
  import opened Utf8
  import opened JsonLexer
  import opened JsonReader
  import opened JsonDocument
  import opened JsonBuild
  import opened JsonWriter
  import opened JsonRoundTrip

  /** `n` times the letter a. */
  function Letters(n: nat): (str: Bytes)
    ensures |str| == n && forall k :: 0 <= k < n ==> str[k] == Ch('a')
  {
    seq(n, _ => Ch('a'))
  }

  function LongText(n: nat): Bytes { [Ch('[')] + (Quoted(Letters(n)) + [Ch(']')]) }

  lemma {:induction false} LettersEncoded(n: nat)
    ensures EncodeAll(Letters(n)) == Letters(n)
    decreases n
  {
    if n > 0 {
      LettersEncoded(n - 1);
      assert Letters(n)[1..] == Letters(n - 1);
      assert Letters(n) == [Ch('a')] + Letters(n - 1);
    }
  }

  lemma LettersReadable(n: nat, f: Flags)
    ensures Readable(Letters(n), f)
  {
    hide DecodeAll, EncodeAll;
    LettersEncoded(n);
    StreamDecodes(Letters(n), 0, Letters(n));
    assert Letters(n)[0..] == Letters(n);
  }

  /** Where the parts of the text are. */
  lemma LongParts(n: nat, f: Flags)
    ensures var s, j := LongText(n), 1 + |Quoted(Letters(n))|;
            && |s| == j + 1 && s[0] == Ch('[') && Peek(s, 1) == Ch('"') && s[j] == Ch(']')
            && Value(s, f, 1) == Done(j, [StringEvent(Letters(n))])
            && Skip(s, f, 0) == Some(0) && Skip(s, f, 1) == Some(1)
            && Skip(s, f, j) == Some(j) && Skip(s, f, j + 1) == Some(j + 1)
  {
    hide Quoted, Skip, Matches, StringRest, LexNumber, Readable;
    var s, q := LongText(n), Quoted(Letters(n));
    Whole(s);
    MatchesSplit(s, 0, [Ch('[')], q + [Ch(']')]);
    MatchesSplit(s, 1, q, [Ch(']')]);
    LettersReadable(n, f);
    QuotedRead(s, f, 1, Letters(n));
    NoSkip(s, f, 0);
    NoSkip(s, f, 1);
    NoSkip(s, f, 1 + |q|);
    NoSkip(s, f, 2 + |q|);
  }

  /** The recursive parser accepts the text, whatever `n` is. */
  lemma LongAccepted(n: nat, f: Flags)
    ensures ParseEvents(LongText(n), f) == Accepted([StartArray, StringEvent(Letters(n)), EndArray(1)])
    ensures TreeOf(LongText(n), f) == JArray([JString(Letters(n))])
  {
    hide LongText, Skip, Quoted, Letters, Leaf, StringRest;
    var s, j, e := LongText(n), 1 + |Quoted(Letters(n))|, StringEvent(Letters(n));
    LongParts(n, f);
    assert AfterElement(s, f, j, 1) == Done(j + 1, [EndArray(1)]);
    assert Elements(s, f, 1, 0) == Done(j + 1, [e] + [EndArray(1)]);
    assert Value(s, f, 0) == Done(j + 1, [StartArray] + ([e] + [EndArray(1)]));
    assert [StartArray] + ([e] + [EndArray(1)]) == [StartArray, e, EndArray(1)];
    assert [] + [JString(Letters(n))] == [JString(Letters(n))];
    assert TreeAt(s, f, 1) == LeafTree([e]) == JString(Letters(n));
    assert ElementsAfter(s, f, j, 1) == [];
    assert ElementTrees(s, f, 1, 0) == [JString(Letters(n))] + [];
  }

  /** What the long string has left on the stack is no frame. */
  lemma NoFrame(base: Bytes, n: nat)
    requires n + 1 >= WIDTH
    ensures var stack := base + Kept(Letters(n));
            |stack| >= 8 && TopWord(DropWord(stack)) == 0x6161_6161
  {
    hide Letters;
    var kept := Kept(Letters(n));
    assert |kept| >= WIDTH;
    assert forall k :: 0 <= k < |kept| - 1 ==> kept[k] == Ch('a');
    var words := DropWord(base + kept);
    assert words == base + kept[..|kept| - 4];
  }

  lemma LongRejected(n: nat, f: Flags)
    requires n + 1 >= WIDTH
    ensures IterativeEvents(LongText(n), f).Rejected?
  {
    hide LongText, Skip, Quoted, Letters, Run, Resume, Kept, Frame, TopWord, DropWord, Value;
    var s, j, e := LongText(n), 1 + |Quoted(Letters(n))|, StringEvent(Letters(n));
    LongParts(n, f);
    OpenStep(s, f, Config(Start, [], 0, []));
    var frame := [] + Frame(Start, 0);
    var c := Config(ArrayInitial, frame, 1, [] + [StartArray]);
    SkipStep(s, f, c);
    LeafStep(s, f, c);
    assert [e][..0] == [];
    assert Leaves([e]) == [] + Kept(e.str) == Kept(e.str);
    var d := Config(Element, frame + Kept(e.str), j, c.events + [e]);
    SkipStep(s, f, d);
    NoFrame(frame, n);
    StuckStep(s, f, d);
  }

  /** A number that is no state is popped. */
  lemma StuckStep(s: Bytes, f: Flags, c: Config)
    requires c.pos < |s| && s[c.pos] == Ch(']') && c.state == Element
    requires |c.stack| >= 8 && TopWord(DropWord(c.stack)) >= |STATES|
    ensures Run(s, f, c).Rejected?
  {
    hide TopWord, DropWord, Resume, Value, Frame;
  }

  lemma OneStringNarrow(str: Bytes)
    ensures Narrow(JArray([JString(str)])) <==> Brief(str)
  {
    var v := JString(str);
    assert Slim(v) && (BriefTree(v) <==> Brief(str));
    assert AllSlim([v]) && (AllBriefTrees([v]) <==> BriefTree(v)) by {
      assert v in [v];
    }
  }

  /** An array of one string of `n` bytes is accepted by the recursive parser for every `n`.  The
      table-driven parser agrees, and the document holds the string, exactly if `n + 1` fits 32
      bits; otherwise the table-driven parser rejects the text. */
  lemma LongString(n: nat, f: Flags)
    ensures var t := ParseEvents(LongText(n), f);
            && t.Accepted?
            && (IterativeEvents(LongText(n), f) == t <==> n + 1 < WIDTH)
            && (IterativeEvents(LongText(n), f).Accepted? <==> n + 1 < WIDTH)
            && (Build([], Told(t.events)) == Some([JArray([JString(Letters(n))])]) <==> n + 1 < WIDTH)
  {
    hide LongText, ParseEvents, IterativeEvents, Build, Told, TreeOf, Letters;
    LongAccepted(n, f);
    AcceptedBuildsOne(LongText(n), f);
    OneStringNarrow(Letters(n));
    if n + 1 < WIDTH {
      ParsersAgree(LongText(n), f);
    } else {
      LongRejected(n, f);
    }
  }
}
