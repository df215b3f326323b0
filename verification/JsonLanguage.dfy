/**
 The recursive parser accepts exactly the JSON texts, and builds the value that each of them
 writes.
 */
module JsonLanguage {
  import opened ByteStrings
  import opened JsonLexer
  import opened JsonReader
  import opened JsonDocument
  import opened JsonBuild
  import opened JsonSpelling
  import opened JsonStrings
  import opened JsonNumbers

  // ---- Gaps ----

  lemma SkipBlank(s: Bytes, f: Flags, i: nat)
    requires i < |s| && IsSpace(s[i])
    ensures Skip(s, f, i) == Skip(s, f, i + 1)
  {
    assert SkipSpace(s, i) == SkipSpace(s, i + 1);
  }

  lemma {:induction false} BlockEndAt(s: Bytes, i: nat, body: Bytes)
    requires ValidFiller(Block(body), Flags(true, false, false, false)) && Matches(s, i, body + [STAR, SLASH])
    ensures i <= |s| && BlockEnd(s, i) == Some(i + |body| + 2)
    decreases |body|
  {
    var text := body + [STAR, SLASH];
    assert s[i + 0] == text[0] && s[i + 1] == text[1];
    if body != [] {
      assert body[0] in body;
      if |body| > 1 {
        assert text[1] == body[1];
      }
      var rest := body[1..];
      assert text == [body[0]] + (rest + [STAR, SLASH]);
      MatchesSplit(s, i, [body[0]], rest + [STAR, SLASH]);
      forall k | 0 <= k < |rest| - 1
        ensures !(rest[k] == STAR && rest[k + 1] == SLASH)
      {
        assert rest[k] == body[k + 1] && rest[k + 1] == body[k + 2];
      }
      BlockEndAt(s, i + 1, rest);
    }
  }

  lemma {:induction false} LineEndAt(s: Bytes, i: nat, body: Bytes, ended: bool)
    requires 0 !in body && 0x0A !in body && Matches(s, i, body + if ended then [0x0A] else [])
    requires !ended ==> Peek(s, i + |body|) == 0
    ensures i <= |s| && LineEnd(s, i) == i + |body| + if ended then 1 else 0
    decreases |body|
  {
    var last := if ended then [0x0A] else [];
    MatchesSplit(s, i, body, last);
    if body == [] {
      if ended {
        First(s, i, last);
      }
    } else {
      assert body == [body[0]] + body[1..] && body[0] in body;
      First(s, i, body);
      MatchesSplit(s, i, [body[0]], body[1..]);
      MatchesSplit(s, i + 1, body[1..], last);
      LineEndAt(s, i + 1, body[1..], ended);
    }
  }

  /** One filler is skipped; a comment that nothing ends must be the last. */
  lemma FillerRead(s: Bytes, f: Flags, i: nat, x: Filler)
    requires ValidFiller(x, f) && Matches(s, i, FillerText(x))
    requires x.Line? && !x.ended ==> Peek(s, i + |FillerText(x)|) == 0
    ensures i + |FillerText(x)| <= |s| && Skip(s, f, i) == Skip(s, f, i + |FillerText(x)|)
  {
    hide BlockEnd, LineEnd;
    match x
    case Blank(c) =>
      OneMatches(s, i, c);
      SkipBlank(s, f, i);
    case Block(body) =>
      var head := [SLASH, STAR];
      MatchesSplit(s, i, head, body + [STAR, SLASH]);
      assert s[i + 0] == head[0] && s[i + 1] == head[1];
      BlockEndAt(s, i + 2, body);
    case Line(body, ended) =>
      var head := [SLASH, SLASH];
      MatchesSplit(s, i, head, body + if ended then [0x0A] else []);
      assert s[i + 0] == head[0] && s[i + 1] == head[1];
      LineEndAt(s, i + 2, body, ended);
  }

  /** Something that is neither white space nor a comment. */
  predicate Solid(c: Byte) { c != 0x20 && c != 0x09 && c != 0x0A && c != 0x0D && c != SLASH }

  lemma {:induction false} GapRead(s: Bytes, f: Flags, i: nat, g: Gap, last: bool)
    requires ValidGap(g, f, last) && Matches(s, i, GapText(g)) && Solid(Peek(s, i + |GapText(g)|))
    requires last ==> Peek(s, i + |GapText(g)|) == 0
    ensures i + |GapText(g)| <= |s| && Skip(s, f, i) == Some(i + |GapText(g)|)
    decreases |g|
  {
    hide FillerText, ValidFiller, Skip, Matches;
    if g == [] {
      EndsInside(s, i, []);
      NoSkip(s, f, i);
    } else {
      var first := FillerText(g[0]);
      MatchesSplit(s, i, first, GapText(g[1..]));
      if |g| == 1 {
        assert GapText(g[1..]) == [];
      }
      FillerRead(s, f, i, g[0]);
      GapRead(s, f, i + |first|, g[1..], last);
    }
  }

  lemma {:induction false} BlockSpelled(s: Bytes, i: nat) returns (body: Bytes)
    requires i <= |s| && BlockEnd(s, i).Some?
    ensures ValidFiller(Block(body), Flags(true, false, false, false)) && Matches(s, i, body + [STAR, SLASH])
    ensures BlockEnd(s, i).value == i + |body| + 2
    decreases |s| - i
  {
    if s[i] == STAR && Peek(s, i + 1) == SLASH {
      body := [];
      assert body + [STAR, SLASH] == [STAR, SLASH] == s[i..i + 2];
      SliceMatches(s, i, i + 2);
    } else {
      var rest := BlockSpelled(s, i + 1);
      body := [s[i]] + rest;
      Associates([s[i]], rest, [STAR, SLASH]);
      OneMatches(s, i, s[i]);
      MatchesSplit(s, i, [s[i]], rest + [STAR, SLASH]);
      if |rest| > 0 {
        First(s, i + 1, rest + [STAR, SLASH]);
      }
      forall k | 0 <= k < |body| - 1
        ensures !(body[k] == STAR && body[k + 1] == SLASH)
      {
        if k > 0 {
          assert rest[k - 1] == body[k] && rest[k] == body[k + 1];
        }
      }
    }
  }

  lemma {:induction false} LineSpelled(s: Bytes, i: nat) returns (body: Bytes, ended: bool)
    requires i <= |s|
    ensures 0 !in body && 0x0A !in body && Matches(s, i, body + if ended then [0x0A] else [])
    ensures LineEnd(s, i) == i + |body| + if ended then 1 else 0
    ensures !ended ==> Peek(s, i + |body|) == 0
    decreases |s| - i
  {
    if Peek(s, i) == 0 {
      body, ended := [], false;
      EmptyMatches(s, i);
    } else if s[i] == 0x0A {
      body, ended := [], true;
      assert [] + [0x0A] == [0x0A];
      OneMatches(s, i, 0x0A);
    } else {
      body, ended := LineSpelled(s, i + 1);
      var last := if ended then [0x0A] else [];
      Associates([s[i]], body, last);
      OneMatches(s, i, s[i]);
      MatchesSplit(s, i, [s[i]], body + last);
      body := [s[i]] + body;
    }
  }

  lemma HeadMatches(s: Bytes, i: nat, a: Byte, b: Byte, rest: Bytes)
    requires i + 1 < |s| && s[i] == a && s[i + 1] == b && Matches(s, i + 2, rest)
    ensures Matches(s, i, [a, b] + rest)
  {
    assert [a, b] == s[i..i + 2];
    SliceMatches(s, i, i + 2);
    MatchesSplit(s, i, [a, b], rest);
  }

  lemma SkipComment(s: Bytes, f: Flags, i: nat)
    requires i < |s| && f.comments && s[i] == SLASH && Skip(s, f, i).Some?
    ensures if Peek(s, i + 1) == STAR then BlockEnd(s, i + 2).Some? && Skip(s, f, i) == Skip(s, f, BlockEnd(s, i + 2).value)
            else Peek(s, i + 1) == SLASH && Skip(s, f, i) == Skip(s, f, LineEnd(s, i + 2))
  {
    hide BlockEnd, LineEnd;
    assert SkipSpace(s, i) == i;
  }

  /** One comment. */
  lemma CommentSpelled(s: Bytes, f: Flags, i: nat) returns (x: Filler)
    requires i < |s| && f.comments && s[i] == SLASH && Skip(s, f, i).Some?
    ensures ValidFiller(x, f) && !x.Blank? && Matches(s, i, FillerText(x))
    ensures i + |FillerText(x)| <= |s| && Skip(s, f, i) == Skip(s, f, i + |FillerText(x)|)
    ensures x.Line? && !x.ended ==> Peek(s, i + |FillerText(x)|) == 0
  {
    hide BlockEnd, LineEnd, Matches, Skip;
    SkipComment(s, f, i);
    if Peek(s, i + 1) == STAR {
      var body := BlockSpelled(s, i + 2);
      x := Block(body);
      HeadMatches(s, i, SLASH, STAR, body + [STAR, SLASH]);
    } else {
      var body, ended := LineSpelled(s, i + 2);
      x := Line(body, ended);
      HeadMatches(s, i, SLASH, SLASH, body + if ended then [0x0A] else []);
    }
    EndsInside(s, i, FillerText(x));
  }

  /** What is skipped is a gap, and something solid follows. */
  lemma {:induction false} GapSpelled(s: Bytes, f: Flags, i: nat) returns (g: Gap)
    requires i <= |s| && Skip(s, f, i).Some?
    ensures var j := Skip(s, f, i).value;
            && ValidGap(g, f, Peek(s, j) == 0) && Matches(s, i, GapText(g)) && i + |GapText(g)| == j
            && (f.comments ==> Solid(Peek(s, j))) && !IsSpace(Peek(s, j))
    decreases |s| - i
  {
    hide Matches, FillerText, ValidFiller;
    var x: Filler;
    if IsSpace(Peek(s, i)) {
      SkipBlank(s, f, i);
      x := Blank(s[i]);
      OneMatches(s, i, s[i]);
      BlankIs(s[i], f);
    } else if f.comments && Peek(s, i) == SLASH {
      x := CommentSpelled(s, f, i);
      CommentLong(x);
    } else {
      g := [];
      EmptyMatches(s, i);
      return;
    }
    var rest := GapSpelled(s, f, i + |FillerText(x)|);
    g := [x] + rest;
    assert g[1..] == rest;
    MatchesSplit(s, i, FillerText(x), GapText(rest));
    if x.Line? && !x.ended {
      EndIsEmpty(s, f, i + |FillerText(x)|, rest);
    }
  }

  lemma BlankIs(c: Byte, f: Flags)
    requires IsSpace(c)
    ensures ValidFiller(Blank(c), f) && FillerText(Blank(c)) == [c]
  {
  }

  lemma CommentLong(x: Filler)
    ensures |FillerText(x)| > 0
  {
  }

  /** At the end of the text there is nothing to skip. */
  lemma EndIsEmpty(s: Bytes, f: Flags, i: nat, g: Gap)
    requires i <= |s| && Peek(s, i) == 0 && Skip(s, f, i) == Some(i + |GapText(g)|)
    ensures g == [] && Skip(s, f, i) == Some(i)
  {
    assert SkipSpace(s, i) == i;
    if g != [] {
      CommentLong(g[0]);
    }
  }

  // ---- Every spelling is read ----

  /** What may follow a value. */
  predicate Stops(j: Json, c: Byte) { j.Numeral? ==> NumberStops(j.n, c) }

  /** What never makes a number longer. */
  predicate After(c: Byte) { !IsDigit(c) && c != Ch('.') && c != Ch('e') && c != Ch('E') }

  lemma AfterStops(j: Json, c: Byte)
    requires After(c)
    ensures Stops(j, c)
  {
  }

  /** What a value can start with. */
  predicate Begins(c: Byte) { Solid(c) && c != Ch(']') && c != Ch('}') && c != 0 }

  lemma TextBegins(j: Json, f: Flags)
    requires ValidJson(j, f)
    ensures TextOf(j) != [] && Begins(TextOf(j)[0])
  {
    hide NumberMeaning, PiecesText, GapText;
    if j.Numeral? {
      assert j.n.whole != [];
    }
  }

  /** The value of a spelling stands at `i`. */
  predicate ReadsAs(s: Bytes, f: Flags, i: nat, j: Json)
  {
    && ValidJson(j, f) && i <= |s| && Value(s, f, i).Done?
    && Value(s, f, i).next == i + |TextOf(j)| && TreeAt(s, f, i) == Meaning(j, f)
  }

  lemma WordRead(s: Bytes, f: Flags, i: nat, j: Json)
    requires (j.NullText? || j.BoolText?) && Matches(s, i, TextOf(j))
    ensures ReadsAs(s, f, i, j)
  {
    hide LexNumber, StringRest, Skip;
    First(s, i, TextOf(j));
    assert [] + [Meaning(j, f)] == [Meaning(j, f)];
  }

  lemma QuoteRead(s: Bytes, f: Flags, i: nat, ps: seq<Piece>)
    requires ValidPieces(ps, f) && Matches(s, i, StringText(ps))
    ensures i < |s| && s[i] == Ch('"') && StringRest(s, f, i + 1) == Good(PiecesBytes(ps, f), i + |StringText(ps)|)
  {
    hide PiecesText, PiecesBytes, ValidPieces, Matches;
    MatchesSplit(s, i, [0x22], PiecesText(ps) + [0x22]);
    OneMatches(s, i, 0x22);
    PiecesRead(s, f, i + 1, ps);
  }

  lemma StringLeaf(s: Bytes, f: Flags, i: nat, ps: seq<Piece>)
    requires ValidPieces(ps, f) && Matches(s, i, StringText(ps))
    ensures ReadsAs(s, f, i, Quote(ps))
  {
    hide LexNumber, StringRest, Skip, PiecesBytes, ValidPieces, StringText;
    QuoteRead(s, f, i, ps);
    var v := JString(PiecesBytes(ps, f));
    assert [] + [v] == [v];
  }

  lemma NumberLeaf(s: Bytes, f: Flags, i: nat, n: NumberText)
    requires ValidJson(Numeral(n), f) && Matches(s, i, NumberTextOf(n)) && NumberStops(n, Peek(s, i + |NumberTextOf(n)|))
    ensures ReadsAs(s, f, i, Numeral(n))
  {
    hide LexNumber, StringRest, Skip, NumberMeaning, NumberTextOf;
    NumberRead(s, i, n);
    NumberBegins(s, i, n);
    ScalarNumber(n);
    assert Leaf(s, f, i) == Done(i + |NumberTextOf(n)|, [LexNumber(s, i).value]);
  }

  lemma NumberBegins(s: Bytes, i: nat, n: NumberText)
    requires ValidNumber(n) && Matches(s, i, NumberTextOf(n))
    ensures i < |s| && (s[i] == Ch('-') || IsDigit(s[i]))
  {
    First(s, i, NumberTextOf(n));
  }

  lemma ScalarNumber(n: NumberText)
    requires ValidNumber(n) && NumberMeaning(n).Some?
    ensures NumberMeaning(n).value.JNumber? || NumberMeaning(n).value.JDouble?
  {
    hide NumberOf, Counted, TooBig, SignificandOf, RangeFlags;
  }

  // Arrays.

  predicate ValidItems(items: seq<Item>, f: Flags) { forall x <- items :: ItemGaps(x, f) && ValidJson(x.value, f) }

  /** The rest of an array after a value: a gap, more items, and the end. */
  function RestText(after: Gap, rest: seq<Item>, comma: bool, tail: Gap): Bytes
  {
    GapText(after) + ItemsText(rest, comma, tail)
  }

  predicate ValidRest(after: Gap, rest: seq<Item>, comma: bool, tail: Gap, f: Flags)
  {
    ValidGap(after, f, false) && ValidItems(rest, f) && ValidTail(true, comma, tail, f)
  }

  lemma FillerBegins(x: Filler, f: Flags)
    requires ValidFiller(x, f)
    ensures FillerText(x) != [] && After(FillerText(x)[0])
  {
  }

  /** A gap, and something after it. */
  lemma GapThen(s: Bytes, f: Flags, i: nat, g: Gap, text: Bytes)
    requires ValidGap(g, f, false) && text != [] && Solid(text[0]) && Matches(s, i, GapText(g) + text)
    ensures var k := i + |GapText(g)|;
            i < |s| && k < |s| && Skip(s, f, i) == Some(k) && s[k] == Peek(s, k) == text[0] && Matches(s, k, text)
    ensures g != [] ==> After(s[i])
    ensures g == [] ==> s[i] == text[0]
  {
    hide Matches, FillerText, ValidFiller;
    MatchesSplit(s, i, GapText(g), text);
    First(s, i + |GapText(g)|, text);
    GapRead(s, f, i, g, false);
    if g != [] {
      FillerBegins(g[0], f);
      First(s, i, GapText(g));
    }
  }

  lemma EndBegins(comma: bool, tail: Gap, f: Flags, bracket: Byte)
    requires ValidTail(true, comma, tail, f)
    ensures EndText(comma, tail, bracket) == if comma then [Ch(',')] + (GapText(tail) + [bracket]) else [bracket]
  {
  }

  lemma ItemsBegin(rest: seq<Item>, comma: bool, tail: Gap, f: Flags)
    requires ValidTail(true, comma, tail, f)
    ensures var t := ItemsText(rest, comma, tail); t != [] && t[0] == if rest == [] && !comma then Ch(']') else Ch(',')
  {
    hide GapText, ItemText;
    EndBegins(comma, tail, f, Ch(']'));
  }

  lemma ArrayEndRead(s: Bytes, f: Flags, i: nat, after: Gap, comma: bool, tail: Gap, count: nat)
    requires ValidRest(after, [], comma, tail, f) && Matches(s, i, RestText(after, [], comma, tail))
    ensures i < |s| && After(s[i])
    ensures AfterElement(s, f, i, count).Done? && AfterElement(s, f, i, count).next == i + |RestText(after, [], comma, tail)|
    ensures ElementsAfter(s, f, i, count) == []
  {
    hide Matches, GapText, ValidGap, Skip, Elements, ElementTrees, ItemsText;
    var k := i + |GapText(after)|;
    NoItems(comma, tail, f);
    GapThen(s, f, i, after, ItemsText([], comma, tail));
    if comma {
      MatchesSplit(s, k, [Ch(',')], GapText(tail) + [Ch(']')]);
      GapThen(s, f, k + 1, tail, [Ch(']')]);
      assert AfterElement(s, f, i, count) == ElementAfterComma(s, f, k + 1, count);
    }
  }

  lemma {:induction false} AfterElementRead(s: Bytes, f: Flags, i: nat, after: Gap, rest: seq<Item>, comma: bool, tail: Gap,
                                            count: nat)
    requires ValidRest(after, rest, comma, tail, f) && Matches(s, i, RestText(after, rest, comma, tail))
    ensures i < |s| && After(s[i])
    ensures AfterElement(s, f, i, count).Done? && AfterElement(s, f, i, count).next == i + |RestText(after, rest, comma, tail)|
    ensures ElementsAfter(s, f, i, count) == ItemMeanings(rest, f)
    decreases rest, 2
  {
    hide Matches, GapText, ValidGap, Skip, Elements, ElementTrees, ItemsText, ItemMeanings, TextOf;
    if rest == [] {
      ArrayEndRead(s, f, i, after, comma, tail, count);
      NoMeanings(f);
    } else {
      var k, x := i + |GapText(after)|, rest[0];
      var value := TextOf(x.value) + RestText(x.after, rest[1..], comma, tail);
      ItemsBegin(rest, comma, tail, f);
      GapThen(s, f, i, after, ItemsText(rest, comma, tail));
      ItemsSplit(rest, comma, tail);
      assert x in rest;
      TextBegins(x.value, f);
      MatchesSplit(s, k, [Ch(',')], GapText(x.before) + value);
      GapThen(s, f, k + 1, x.before, value);
      var at := k + 1 + |GapText(x.before)|;
      ElementsRead(s, f, at, rest, comma, tail, count);
      assert AfterElement(s, f, i, count) == ElementAfterComma(s, f, k + 1, count) == Elements(s, f, at, count);
    }
  }

  lemma NoItems(comma: bool, tail: Gap, f: Flags)
    requires ValidTail(true, comma, tail, f)
    ensures ItemsText([], comma, tail) == if comma then [Ch(',')] + (GapText(tail) + [Ch(']')]) else [Ch(']')]
  {
    EndBegins(comma, tail, f, Ch(']'));
  }

  lemma ItemsSplit(items: seq<Item>, comma: bool, tail: Gap)
    requires items != []
    ensures var x := items[0];
            ItemsText(items, comma, tail)
            == [Ch(',')] + (GapText(x.before) + (TextOf(x.value) + RestText(x.after, items[1..], comma, tail)))
  {
    hide GapText, TextOf;
    var x, more := items[0], ItemsText(items[1..], comma, tail);
    ItemThen(x, more);
  }

  lemma ItemThen(x: Item, more: Bytes)
    ensures ItemText(x) + more == GapText(x.before) + (TextOf(x.value) + (GapText(x.after) + more))
  {
    hide GapText, TextOf;
    Associates(GapText(x.before), TextOf(x.value) + GapText(x.after), more);
    Associates(TextOf(x.value), GapText(x.after), more);
  }

  /** Items from the value of the first on. */
  lemma {:induction false} ElementsRead(s: Bytes, f: Flags, i: nat, items: seq<Item>, comma: bool, tail: Gap, count: nat)
    requires items != [] && ValidItems(items, f) && ValidTail(true, comma, tail, f)
    requires Matches(s, i, TextOf(items[0].value) + RestText(items[0].after, items[1..], comma, tail))
    ensures i <= |s| && Elements(s, f, i, count).Done?
    ensures Elements(s, f, i, count).next == i + |TextOf(items[0].value) + RestText(items[0].after, items[1..], comma, tail)|
    ensures ElementTrees(s, f, i, count) == ItemMeanings(items, f)
    decreases items, 1
  {
    hide Matches, GapText, ValidGap, Value, AfterElement, TreeAt, ElementsAfter, TextOf, RestText, Meaning;
    var x := items[0];
    assert x in items && ItemGaps(x, f) && forall y <- items[1..] :: y in items;
    var k := i + |TextOf(x.value)|;
    MatchesSplit(s, i, TextOf(x.value), RestText(x.after, items[1..], comma, tail));
    AfterElementRead(s, f, k, x.after, items[1..], comma, tail, Inc(count));
    AfterStops(x.value, s[k]);
    ValueRead(s, f, i, x.value);
  }

  lemma EmptyArrayRead(s: Bytes, f: Flags, i: nat, tail: Gap)
    requires ValidJson(List([], false, tail), f) && Matches(s, i, TextOf(List([], false, tail)))
    ensures ReadsAs(s, f, i, List([], false, tail))
  {
    hide Matches, GapText, Skip, Elements, ElementTrees, Leaf, EndText;
    var k := i + 1 + |GapText(tail)|;
    EndOnly(tail, Ch(']'));
    MatchesSplit(s, i, [Ch('[')], GapText(tail) + [Ch(']')]);
    OneMatches(s, i, Ch('['));
    GapThen(s, f, i + 1, tail, [Ch(']')]);
    NoMeanings(f);
    assert ArrayBody(s, f, i + 1) == Done(k + 1, [EndArray(0)]);
    assert TreeAt(s, f, i) == JArray([]);
  }

  lemma {:induction false} ArrayRead(s: Bytes, f: Flags, i: nat, items: seq<Item>, comma: bool, tail: Gap)
    requires ValidJson(List(items, comma, tail), f) && Matches(s, i, TextOf(List(items, comma, tail)))
    ensures ReadsAs(s, f, i, List(items, comma, tail))
    decreases items, 3
  {
    hide Matches, GapText, Skip, Elements, ElementTrees, ItemsText, ItemMeanings, ItemText, Leaf, EndText;
    if items == [] {
      EmptyArrayRead(s, f, i, tail);
    } else {
      var x := items[0];
      var value := TextOf(x.value) + RestText(x.after, items[1..], comma, tail);
      ItemThen(x, ItemsText(items[1..], comma, tail));
      MatchesSplit(s, i, [Ch('[')], GapText(x.before) + value);
      OneMatches(s, i, Ch('['));
      assert x in items;
      TextBegins(x.value, f);
      GapThen(s, f, i + 1, x.before, value);
      var k := i + 1 + |GapText(x.before)|;
      ElementsRead(s, f, k, items, comma, tail, 0);
      assert ArrayBody(s, f, i + 1) == Elements(s, f, k, 0);
      assert TreeAt(s, f, i) == JArray(ElementTrees(s, f, k, 0));
      assert Meaning(List(items, comma, tail), f) == JArray(ItemMeanings(items, f));
    }
  }

  lemma EndOnly(tail: Gap, bracket: Byte)
    ensures EndText(false, tail, bracket) == GapText(tail) + [bracket]
  {
  }

  lemma NoMeanings(f: Flags)
    ensures ItemMeanings([], f) == [] && EntryMeanings([], f) == []
  {
  }

  /** Every spelling of a value is read as that value, wherever it stands. */
  lemma {:induction false} ValueRead(s: Bytes, f: Flags, i: nat, j: Json)
    requires ValidJson(j, f) && Matches(s, i, TextOf(j)) && Stops(j, Peek(s, i + |TextOf(j)|))
    ensures ReadsAs(s, f, i, j)
    decreases j, 4
  {
    hide ReadsAs, Matches;
    match j
    case Numeral(n) => NumberLeaf(s, f, i, n);
    case Quote(ps) => StringLeaf(s, f, i, ps);
    case List(items, comma, tail) => ArrayRead(s, f, i, items, comma, tail);
    case Record(entries, comma, tail) => ObjectRead(s, f, i, entries, comma, tail);
    case _ => WordRead(s, f, i, j);
  }

  // Objects.

  predicate ValidEntries(entries: seq<Entry>, f: Flags) { forall x <- entries :: EntryGaps(x, f) && ValidJson(x.value, f) }

  /** An entry from its name on, and the rest of the object. */
  function NamedText(x: Entry, rest: seq<Entry>, comma: bool, tail: Gap): Bytes
  {
    StringText(x.name) + ColonText(x, rest, comma, tail)
  }

  function ColonText(x: Entry, rest: seq<Entry>, comma: bool, tail: Gap): Bytes
  {
    GapText(x.between) + ([Ch(':')] + (GapText(x.next) + (TextOf(x.value) + MoreText(x.after, rest, comma, tail))))
  }

  function MoreText(after: Gap, rest: seq<Entry>, comma: bool, tail: Gap): Bytes
  {
    GapText(after) + EntriesText(rest, comma, tail)
  }

  lemma EntriesBegin(rest: seq<Entry>, comma: bool, tail: Gap, f: Flags)
    requires ValidTail(true, comma, tail, f)
    ensures var t := EntriesText(rest, comma, tail); t != [] && t[0] == if rest == [] && !comma then Ch('}') else Ch(',')
  {
    hide GapText, EntryText;
    EndBegins(comma, tail, f, Ch('}'));
  }

  lemma NoEntries(comma: bool, tail: Gap, f: Flags)
    requires ValidTail(true, comma, tail, f)
    ensures EntriesText([], comma, tail) == if comma then [Ch(',')] + (GapText(tail) + [Ch('}')]) else [Ch('}')]
  {
    EndBegins(comma, tail, f, Ch('}'));
  }

  lemma EntryThen(x: Entry, rest: seq<Entry>, comma: bool, tail: Gap)
    ensures EntryText(x) + EntriesText(rest, comma, tail) == GapText(x.before) + NamedText(x, rest, comma, tail)
  {
    hide GapText, TextOf, StringText, EntriesText;
    var more := EntriesText(rest, comma, tail);
    var e := TextOf(x.value) + GapText(x.after);
    var d := GapText(x.next) + e;
    var c := [Ch(':')] + d;
    var b := GapText(x.between) + c;
    Associates(GapText(x.before), StringText(x.name) + b, more);
    Associates(StringText(x.name), b, more);
    Associates(GapText(x.between), c, more);
    Associates([Ch(':')], d, more);
    Associates(GapText(x.next), e, more);
    Associates(TextOf(x.value), GapText(x.after), more);
  }

  lemma ObjectEndRead(s: Bytes, f: Flags, i: nat, after: Gap, comma: bool, tail: Gap, count: nat)
    requires ValidGap(after, f, false) && ValidTail(true, comma, tail, f) && Matches(s, i, MoreText(after, [], comma, tail))
    ensures i < |s| && After(s[i])
    ensures AfterMember(s, f, i, count).Done? && AfterMember(s, f, i, count).next == i + |MoreText(after, [], comma, tail)|
    ensures MembersAfter(s, f, i, count) == []
  {
    hide Matches, GapText, ValidGap, Skip, Members, MemberTrees, EntriesText;
    var k := i + |GapText(after)|;
    NoEntries(comma, tail, f);
    GapThen(s, f, i, after, EntriesText([], comma, tail));
    if comma {
      MatchesSplit(s, k, [Ch(',')], GapText(tail) + [Ch('}')]);
      GapThen(s, f, k + 1, tail, [Ch('}')]);
      assert AfterMember(s, f, i, count) == MemberAfterComma(s, f, k + 1, count);
    }
  }

  lemma {:induction false} AfterMemberRead(s: Bytes, f: Flags, i: nat, after: Gap, rest: seq<Entry>, comma: bool, tail: Gap,
                                           count: nat)
    requires ValidGap(after, f, false) && ValidEntries(rest, f) && ValidTail(true, comma, tail, f)
    requires Matches(s, i, MoreText(after, rest, comma, tail))
    ensures i < |s| && After(s[i])
    ensures AfterMember(s, f, i, count).Done? && AfterMember(s, f, i, count).next == i + |MoreText(after, rest, comma, tail)|
    ensures MembersAfter(s, f, i, count) == EntryMeanings(rest, f)
    decreases rest, 2
  {
    hide Matches, GapText, ValidGap, Skip, Members, MemberTrees, EntriesText, EntryMeanings, TextOf, StringText, EntryText;
    if rest == [] {
      ObjectEndRead(s, f, i, after, comma, tail, count);
      NoMeanings(f);
    } else {
      var k, x := i + |GapText(after)|, rest[0];
      var named := NamedText(x, rest[1..], comma, tail);
      EntriesBegin(rest, comma, tail, f);
      GapThen(s, f, i, after, EntriesText(rest, comma, tail));
      EntriesSplit(rest, comma, tail);
      assert x in rest && EntryGaps(x, f);
      NamedBegins(x, rest[1..], comma, tail);
      MatchesSplit(s, k, [Ch(',')], GapText(x.before) + named);
      GapThen(s, f, k + 1, x.before, named);
      var at := k + 1 + |GapText(x.before)|;
      MembersRead(s, f, at, rest, comma, tail, count);
      assert AfterMember(s, f, i, count) == MemberAfterComma(s, f, k + 1, count) == Members(s, f, at, count);
    }
  }

  lemma EntriesSplit(entries: seq<Entry>, comma: bool, tail: Gap)
    requires entries != []
    ensures EntriesText(entries, comma, tail)
            == [Ch(',')] + (GapText(entries[0].before) + NamedText(entries[0], entries[1..], comma, tail))
  {
    hide GapText, NamedText, EntryText;
    EntryThen(entries[0], entries[1..], comma, tail);
  }

  lemma NamedBegins(x: Entry, rest: seq<Entry>, comma: bool, tail: Gap)
    ensures NamedText(x, rest, comma, tail) != [] && NamedText(x, rest, comma, tail)[0] == 0x22
  {
    hide PiecesText, ColonText;
  }

  /** Entries from the name of the first on. */
  lemma {:induction false} MembersRead(s: Bytes, f: Flags, i: nat, entries: seq<Entry>, comma: bool, tail: Gap, count: nat)
    requires entries != [] && ValidEntries(entries, f) && ValidTail(true, comma, tail, f)
    requires Matches(s, i, NamedText(entries[0], entries[1..], comma, tail))
    ensures i <= |s| && Members(s, f, i, count).Done?
    ensures Members(s, f, i, count).next == i + |NamedText(entries[0], entries[1..], comma, tail)|
    ensures MemberTrees(s, f, i, count) == EntryMeanings(entries, f)
    decreases entries, 1
  {
    hide Matches, GapText, ValidGap, Value, AfterKey, TreeAt, MembersAfter, TextOf, StringText, Meaning, StringRest;
    hide PiecesBytes, ValidPieces, ColonText;
    var x, rest := entries[0], entries[1..];
    assert x in entries && EntryGaps(x, f) && forall y <- rest :: y in entries;
    var k := i + |StringText(x.name)|;
    MatchesSplit(s, i, StringText(x.name), ColonText(x, rest, comma, tail));
    QuoteRead(s, f, i, x.name);
    var at := ColonRead(s, f, k, x, rest, comma, tail, count, entries);
    KeyParts(s, f, k, count);
  }

  lemma {:induction false} ColonRead(s: Bytes, f: Flags, i: nat, x: Entry, rest: seq<Entry>, comma: bool, tail: Gap,
                                     count: nat, entries: seq<Entry>)
    returns (at: nat)
    requires entries != [] && x == entries[0] && rest == entries[1..]
    requires EntryGaps(x, f) && ValidJson(x.value, f) && ValidEntries(rest, f) && ValidTail(true, comma, tail, f)
    requires Matches(s, i, ColonText(x, rest, comma, tail))
    ensures i <= |s| && AfterKey(s, f, i, count).Done? && AfterKey(s, f, i, count).next == i + |ColonText(x, rest, comma, tail)|
    ensures at == ValueAt(s, f, i) && at <= |s| && Value(s, f, at).Done? && TreeAt(s, f, at) == Meaning(x.value, f)
    ensures AfterMember(s, f, Value(s, f, at).next, Inc(count)).Done?
    ensures MembersAfter(s, f, Value(s, f, at).next, Inc(count)) == EntryMeanings(rest, f)
    decreases entries, 0
  {
    hide Matches, GapText, ValidGap, Skip, Value, AfterMember, TreeAt, MembersAfter, TextOf, Meaning, MoreText, EntryMeanings;
    var value := TextOf(x.value) + MoreText(x.after, rest, comma, tail);
    var colon := [Ch(':')] + (GapText(x.next) + value);
    var k := i + |GapText(x.between)|;
    GapThen(s, f, i, x.between, colon);
    MatchesSplit(s, k, [Ch(':')], GapText(x.next) + value);
    TextBegins(x.value, f);
    GapThen(s, f, k + 1, x.next, value);
    at := k + 1 + |GapText(x.next)|;
    var end := at + |TextOf(x.value)|;
    MatchesSplit(s, at, TextOf(x.value), MoreText(x.after, rest, comma, tail));
    AfterMemberRead(s, f, end, x.after, rest, comma, tail, Inc(count));
    AfterStops(x.value, s[end]);
    ValueRead(s, f, at, x.value);
    assert AfterKey(s, f, i, count) == AfterColon(s, f, k + 1, count);
  }

  lemma EmptyObjectRead(s: Bytes, f: Flags, i: nat, tail: Gap)
    requires ValidJson(Record([], false, tail), f) && Matches(s, i, TextOf(Record([], false, tail)))
    ensures ReadsAs(s, f, i, Record([], false, tail))
  {
    hide Matches, GapText, Skip, Members, MemberTrees, Leaf, EndText;
    var k := i + 1 + |GapText(tail)|;
    EndOnly(tail, Ch('}'));
    MatchesSplit(s, i, [Ch('{')], GapText(tail) + [Ch('}')]);
    OneMatches(s, i, Ch('{'));
    GapThen(s, f, i + 1, tail, [Ch('}')]);
    NoMeanings(f);
    assert ObjectBody(s, f, i + 1) == Done(k + 1, [EndObject(0)]);
    assert TreeAt(s, f, i) == JObject([]);
  }

  lemma {:induction false} ObjectRead(s: Bytes, f: Flags, i: nat, entries: seq<Entry>, comma: bool, tail: Gap)
    requires ValidJson(Record(entries, comma, tail), f) && Matches(s, i, TextOf(Record(entries, comma, tail)))
    ensures ReadsAs(s, f, i, Record(entries, comma, tail))
    decreases entries, 3
  {
    hide Matches, GapText, Skip, Members, MemberTrees, EntriesText, EntryMeanings, EntryText, Leaf, EndText;
    if entries == [] {
      EmptyObjectRead(s, f, i, tail);
    } else {
      var x := entries[0];
      var named := NamedText(x, entries[1..], comma, tail);
      EntryThen(x, entries[1..], comma, tail);
      MatchesSplit(s, i, [Ch('{')], GapText(x.before) + named);
      OneMatches(s, i, Ch('{'));
      assert x in entries && EntryGaps(x, f);
      NamedBegins(x, entries[1..], comma, tail);
      GapThen(s, f, i + 1, x.before, named);
      var k := i + 1 + |GapText(x.before)|;
      MembersRead(s, f, k, entries, comma, tail, 0);
      assert ObjectBody(s, f, i + 1) == Members(s, f, k, 0);
      assert TreeAt(s, f, i) == JObject(MemberTrees(s, f, k, 0));
      assert Meaning(Record(entries, comma, tail), f) == JObject(EntryMeanings(entries, f));
    }
  }
}
