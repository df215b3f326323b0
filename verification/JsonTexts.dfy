/**
 Every text that the parsers accept is a JSON text: from an accepted text its spelling is
 recovered.  With the other direction this says exactly which texts are accepted.
 */
module JsonTexts {
  import opened ByteStrings
  import opened JsonLexer
  import opened JsonReader
  import opened JsonDocument
  import opened JsonBuild
  import opened JsonSpelling
  import opened JsonStrings
  import opened JsonNumbers
  import opened JsonLanguage

  // ---- Values ----

  /** `text` stands at `i`, and ends at `end`. */
  predicate From(s: Bytes, i: nat, text: Bytes, end: nat) { Matches(s, i, text) && i + |text| == end }

  lemma Joined(s: Bytes, i: nat, a: Bytes, m: nat, b: Bytes, end: nat)
    requires From(s, i, a, m) && From(s, m, b, end)
    ensures From(s, i, a + b, end)
  {
    hide Matches;
    MatchesSplit(s, i, a, b);
  }

  lemma OneByte(s: Bytes, i: nat)
    requires i < |s|
    ensures From(s, i, [s[i]], i + 1)
  {
    OneMatches(s, i, s[i]);
  }

  /** What is skipped before something that is not the end. */
  lemma GapFound(s: Bytes, f: Flags, i: nat) returns (g: Gap)
    requires i <= |s| && Skip(s, f, i).Some? && Peek(s, Skip(s, f, i).value) != 0
    ensures ValidGap(g, f, false) && From(s, i, GapText(g), Skip(s, f, i).value)
  {
    hide Matches, GapText, ValidGap, Skip;
    g := GapSpelled(s, f, i);
  }

  /** The value at `i` is a spelling. */
  predicate Spelled(s: Bytes, f: Flags, i: nat, j: Json)
    requires i <= |s|
  {
    && Value(s, f, i).Done? && ValidJson(j, f) && From(s, i, TextOf(j), Value(s, f, i).next)
    && Stops(j, Peek(s, Value(s, f, i).next))
  }

  lemma WordSpelled(s: Bytes, f: Flags, i: nat) returns (j: Json)
    requires i <= |s| && Value(s, f, i).Done? && (Peek(s, i) == Ch('n') || Peek(s, i) == Ch('t') || Peek(s, i) == Ch('f'))
    ensures Spelled(s, f, i, j)
  {
    hide LexNumber, StringRest, Skip;
    j := if Peek(s, i) == Ch('n') then NullText else BoolText(Peek(s, i) == Ch('t'));
  }

  lemma StringFound(s: Bytes, f: Flags, i: nat) returns (ps: seq<Piece>)
    requires i < |s| && s[i] == Ch('"') && StringRest(s, f, i + 1).Good?
    ensures ValidPieces(ps, f) && From(s, i, StringText(ps), StringRest(s, f, i + 1).next)
  {
    hide Matches, PiecesText, PiecesBytes, ValidPieces;
    ps := StringSpelled(s, f, i + 1);
    OneByte(s, i);
    Joined(s, i, [0x22], i + 1, PiecesText(ps) + [0x22], StringRest(s, f, i + 1).next);
  }

  lemma LeafSpelled(s: Bytes, f: Flags, i: nat) returns (j: Json)
    requires i <= |s| && Value(s, f, i).Done? && Peek(s, i) != Ch('{') && Peek(s, i) != Ch('[')
    ensures Spelled(s, f, i, j)
  {
    hide LexNumber, StringRest, NumberMeaning, NumberTextOf, StringText, Matches, ValidPieces;
    var c := Peek(s, i);
    if c == Ch('n') || c == Ch('t') || c == Ch('f') {
      j := WordSpelled(s, f, i);
    } else if c == Ch('"') {
      var ps := StringFound(s, f, i);
      j := Quote(ps);
    } else {
      var n := NumberSpelled(s, i);
      j := Numeral(n);
    }
  }

  lemma {:induction false} ValueSpelled(s: Bytes, f: Flags, i: nat) returns (j: Json)
    requires i <= |s| && Value(s, f, i).Done?
    ensures Spelled(s, f, i, j)
    decreases |s| - i, 1
  {
    hide Spelled, Leaf, ArrayBody, ObjectBody;
    if Peek(s, i) == Ch('[') {
      j := ArraySpelled(s, f, i);
    } else if Peek(s, i) == Ch('{') {
      j := ObjectSpelled(s, f, i);
    } else {
      j := LeafSpelled(s, f, i);
    }
  }

  // ---- Arrays ----

  lemma {:induction false} ArraySpelled(s: Bytes, f: Flags, i: nat) returns (j: Json)
    requires i < |s| && s[i] == Ch('[') && Value(s, f, i).Done?
    ensures Spelled(s, f, i, j)
    decreases |s| - i, 0
  {
    hide Leaf, Skip, Elements, Matches, GapText, ValidGap, ItemText, ItemsText, EndText, From;
    assert ArrayBody(s, f, i + 1).Done?;
    var k := Skip(s, f, i + 1).value;
    var end := Value(s, f, i).next;
    NotAtEnd(s, f, k, 0);
    var before := GapFound(s, f, i + 1);
    OneByte(s, i);
    if Peek(s, k) == Ch(']') {
      j := List([], false, before);
      OneByte(s, k);
      Joined(s, i + 1, GapText(before), k, [Ch(']')], end);
      EndOnly(before, Ch(']'));
      Joined(s, i, [Ch('[')], i + 1, GapText(before) + [Ch(']')], end);
      NoGap(f);
    } else {
      var items, comma, tail := ElementsSpelled(s, f, k, 0);
      var x := items[0].(before := before);
      var all := [x] + items[1..];
      var value := TextOf(x.value) + RestText(x.after, items[1..], comma, tail);
      Joined(s, i + 1, GapText(before), k, value, end);
      ItemThen(x, ItemsText(items[1..], comma, tail));
      Joined(s, i, [Ch('[')], i + 1, GapText(before) + value, end);
      j := List(all, comma, tail);
      assert all[0] == x && all[1..] == items[1..];
      Replaced(items, x, f);
    }
  }

  lemma NoGap(f: Flags)
    ensures ValidGap([], f, false)
  {
  }

  lemma Replaced(items: seq<Item>, x: Item, f: Flags)
    requires items != [] && ValidItems(items, f) && ItemGaps(x, f) && ValidJson(x.value, f)
    ensures ValidItems([x] + items[1..], f)
  {
    hide ItemGaps, ValidJson;
    assert forall y <- items[1..] :: y in items;
  }

  /** The elements from `i` on, where the value of the first stands. */
  lemma {:induction false} ElementsSpelled(s: Bytes, f: Flags, i: nat, count: nat)
    returns (items: seq<Item>, comma: bool, tail: Gap)
    requires i <= |s| && Elements(s, f, i, count).Done?
    ensures items != [] && ValidItems(items, f) && ValidTail(true, comma, tail, f)
    ensures From(s, i, TextOf(items[0].value) + RestText(items[0].after, items[1..], comma, tail),
                 Elements(s, f, i, count).next)
    decreases |s| - i, 2
  {
    hide Leaf, Value, AfterElement, Matches, GapText, ValidGap, RestText, TextOf, From, ValidTail;
    var v := Value(s, f, i);
    var j := ValueSpelled(s, f, i);
    var after, rest;
    after, rest, comma, tail := AfterElementSpelled(s, f, v.next, Inc(count));
    var x := Item([], j, after);
    items := [x] + rest;
    assert items[1..] == rest;
    NoGap(f);
    Joined(s, i, TextOf(j), v.next, RestText(after, rest, comma, tail), Elements(s, f, i, count).next);
    Prepended(x, rest, f);
  }

  lemma Prepended(x: Item, rest: seq<Item>, f: Flags)
    requires ValidItems(rest, f) && ItemGaps(x, f) && ValidJson(x.value, f)
    ensures ValidItems([x] + rest, f)
  {
    hide ItemGaps, ValidJson;
  }

  lemma {:induction false} AfterElementSpelled(s: Bytes, f: Flags, i: nat, count: nat)
    returns (after: Gap, rest: seq<Item>, comma: bool, tail: Gap)
    requires i <= |s| && AfterElement(s, f, i, count).Done?
    ensures ValidGap(after, f, false) && ValidItems(rest, f) && ValidTail(true, comma, tail, f)
    ensures From(s, i, RestText(after, rest, comma, tail), AfterElement(s, f, i, count).next)
    decreases |s| - i, 3
  {
    hide Leaf, Skip, Elements, Matches, GapText, ValidGap, ItemText, ItemsText, EndText, From;
    var k, end := Skip(s, f, i).value, AfterElement(s, f, i, count).next;
    after := GapFound(s, f, i);
    rest, comma, tail := [], false, [];
    NoGap(f);
    OneByte(s, k);
    if Peek(s, k) == Ch(']') {
      NoItems(false, [], f);
      Joined(s, i, GapText(after), k, [Ch(']')], end);
    } else {
      assert AfterElement(s, f, i, count) == ElementAfterComma(s, f, k + 1, count);
      var m := Skip(s, f, k + 1).value;
      var next := NextGap(s, f, k + 1, Ch(']'), count);
      if f.trailingCommas && Peek(s, m) == Ch(']') {
        comma, tail := true, next;
        OneByte(s, m);
        NoItems(true, tail, f);
        Joined(s, k + 1, GapText(tail), m, [Ch(']')], end);
        Joined(s, k, [Ch(',')], k + 1, GapText(tail) + [Ch(']')], end);
        Joined(s, i, GapText(after), k, ItemsText([], true, tail), end);
      } else {
        var items;
        items, comma, tail := ElementsSpelled(s, f, m, count);
        rest := [items[0].(before := next)] + items[1..];
        ItemsJoined(s, i, after, k, next, m, items, comma, tail, end);
        Replaced(items, rest[0], f);
      }
    }
  }

  /** A gap, a comma, another gap, and the items after it. */
  lemma ItemsJoined(s: Bytes, i: nat, after: Gap, k: nat, next: Gap, m: nat, items: seq<Item>, comma: bool, tail: Gap, end: nat)
    requires items != [] && From(s, i, GapText(after), k) && From(s, k, [Ch(',')], k + 1) && From(s, k + 1, GapText(next), m)
    requires From(s, m, TextOf(items[0].value) + RestText(items[0].after, items[1..], comma, tail), end)
    ensures From(s, i, RestText(after, [items[0].(before := next)] + items[1..], comma, tail), end)
  {
    hide From, GapText, ItemsText, TextOf;
    var x := items[0].(before := next);
    var rest := [x] + items[1..];
    assert rest[1..] == items[1..];
    var value := TextOf(x.value) + RestText(x.after, items[1..], comma, tail);
    Joined(s, k + 1, GapText(next), m, value, end);
    Joined(s, k, [Ch(',')], k + 1, GapText(next) + value, end);
    ItemsSplit(rest, comma, tail);
    Joined(s, i, GapText(after), k, ItemsText(rest, comma, tail), end);
  }

  /** After a comma something stands that is not the end of the text. */
  lemma NextGap(s: Bytes, f: Flags, i: nat, bracket: Byte, count: nat) returns (g: Gap)
    requires i <= |s| && (bracket == Ch(']') || bracket == Ch('}'))
    requires if bracket == Ch(']') then ElementAfterComma(s, f, i, count).Done? else MemberAfterComma(s, f, i, count).Done?
    ensures Skip(s, f, i).Some? && Peek(s, Skip(s, f, i).value) != 0
    ensures ValidGap(g, f, false) && From(s, i, GapText(g), Skip(s, f, i).value)
  {
    hide Matches, GapText, ValidGap, Skip, Elements, Members;
    NotAtEnd(s, f, Skip(s, f, i).value, count);
    g := GapFound(s, f, i);
  }

  lemma NotAtEnd(s: Bytes, f: Flags, i: nat, count: nat)
    requires i <= |s|
    ensures Elements(s, f, i, count).Done? || Members(s, f, i, count).Done? || Value(s, f, i).Done? ==> Peek(s, i) != 0
  {
    hide Leaf, AfterElement, AfterKey, StringRest;
    if Peek(s, i) == 0 {
      NothingRead(s, f, i);
    }
  }

  // ---- Objects ----

  lemma {:induction false} ObjectSpelled(s: Bytes, f: Flags, i: nat) returns (j: Json)
    requires i < |s| && s[i] == Ch('{') && Value(s, f, i).Done?
    ensures Spelled(s, f, i, j)
    decreases |s| - i, 0
  {
    hide Leaf, Skip, Members, Matches, GapText, ValidGap, EntryText, EntriesText, EndText, From;
    assert ObjectBody(s, f, i + 1).Done?;
    var k := Skip(s, f, i + 1).value;
    var end := Value(s, f, i).next;
    NotAtEnd(s, f, k, 0);
    var before := GapFound(s, f, i + 1);
    OneByte(s, i);
    if Peek(s, k) == Ch('}') {
      j := Record([], false, before);
      OneByte(s, k);
      Joined(s, i + 1, GapText(before), k, [Ch('}')], end);
      EndOnly(before, Ch('}'));
      Joined(s, i, [Ch('{')], i + 1, GapText(before) + [Ch('}')], end);
      NoGap(f);
    } else {
      var entries, comma, tail := MembersSpelled(s, f, k, 0);
      var x := entries[0].(before := before);
      var all := [x] + entries[1..];
      var named := NamedText(x, entries[1..], comma, tail);
      Joined(s, i + 1, GapText(before), k, named, end);
      EntryThen(x, entries[1..], comma, tail);
      Joined(s, i, [Ch('{')], i + 1, GapText(before) + named, end);
      j := Record(all, comma, tail);
      assert all[0] == x && all[1..] == entries[1..];
      ReplacedEntry(entries, x, f);
    }
  }

  lemma ReplacedEntry(entries: seq<Entry>, x: Entry, f: Flags)
    requires entries != [] && ValidEntries(entries, f) && EntryGaps(x, f) && ValidJson(x.value, f)
    ensures ValidEntries([x] + entries[1..], f)
  {
    hide EntryGaps, ValidJson;
    assert forall y <- entries[1..] :: y in entries;
  }

  lemma PrependedEntry(x: Entry, rest: seq<Entry>, f: Flags)
    requires ValidEntries(rest, f) && EntryGaps(x, f) && ValidJson(x.value, f)
    ensures ValidEntries([x] + rest, f)
  {
    hide EntryGaps, ValidJson;
  }

  /** The members from `i` on, where the name of the first stands. */
  lemma {:induction false} MembersSpelled(s: Bytes, f: Flags, i: nat, count: nat)
    returns (entries: seq<Entry>, comma: bool, tail: Gap)
    requires i <= |s| && Members(s, f, i, count).Done?
    ensures entries != [] && ValidEntries(entries, f) && ValidTail(true, comma, tail, f)
    ensures From(s, i, NamedText(entries[0], entries[1..], comma, tail), Members(s, f, i, count).next)
    decreases |s| - i, 2
  {
    hide AfterKey, StringRest, Matches, GapText, ValidGap, ColonText, StringText, From, ValidTail, ValidPieces;
    var k := StringRest(s, f, i + 1).next;
    var name := StringFound(s, f, i);
    var x, rest;
    x, rest, comma, tail := KeySpelled(s, f, k, count);
    x := x.(name := name);
    entries := [x] + rest;
    assert entries[1..] == rest;
    SameColon(x, name, rest, comma, tail);
    Joined(s, i, StringText(name), k, ColonText(x, rest, comma, tail), Members(s, f, i, count).next);
    PrependedEntry(x, rest, f);
  }

  lemma SameColon(x: Entry, name: seq<Piece>, rest: seq<Entry>, comma: bool, tail: Gap)
    ensures ColonText(x.(name := name), rest, comma, tail) == ColonText(x.(name := []), rest, comma, tail)
  {
  }

  /** A member after its name. */
  lemma {:induction false} KeySpelled(s: Bytes, f: Flags, i: nat, count: nat)
    returns (x: Entry, rest: seq<Entry>, comma: bool, tail: Gap)
    requires i <= |s| && AfterKey(s, f, i, count).Done?
    ensures x.before == [] && x.name == [] && EntryGaps(x, f) && ValidJson(x.value, f)
    ensures ValidEntries(rest, f) && ValidTail(true, comma, tail, f)
    ensures From(s, i, ColonText(x, rest, comma, tail), AfterKey(s, f, i, count).next)
    decreases |s| - i, 1
  {
    hide Leaf, Skip, Value, AfterMember, Matches, GapText, ValidGap, TextOf, MoreText, From, ValidTail;
    var k, end := Skip(s, f, i).value, AfterKey(s, f, i, count).next;
    assert AfterKey(s, f, i, count) == AfterColon(s, f, k + 1, count);
    var at := Skip(s, f, k + 1).value;
    var v := Value(s, f, at);
    var between := GapFound(s, f, i);
    NotAtEnd(s, f, at, count);
    var next := GapFound(s, f, k + 1);
    var j := ValueSpelled(s, f, at);
    var after;
    after, rest, comma, tail := AfterMemberSpelled(s, f, v.next, Inc(count));
    x := Entry([], [], between, next, j, after);
    NoGap(f);
    OneByte(s, k);
    var value := TextOf(j) + MoreText(after, rest, comma, tail);
    Joined(s, at, TextOf(j), v.next, MoreText(after, rest, comma, tail), end);
    Joined(s, k + 1, GapText(next), at, value, end);
    Joined(s, k, [Ch(':')], k + 1, GapText(next) + value, end);
    Joined(s, i, GapText(between), k, [Ch(':')] + (GapText(next) + value), end);
  }

  lemma {:induction false} AfterMemberSpelled(s: Bytes, f: Flags, i: nat, count: nat)
    returns (after: Gap, rest: seq<Entry>, comma: bool, tail: Gap)
    requires i <= |s| && AfterMember(s, f, i, count).Done?
    ensures ValidGap(after, f, false) && ValidEntries(rest, f) && ValidTail(true, comma, tail, f)
    ensures From(s, i, MoreText(after, rest, comma, tail), AfterMember(s, f, i, count).next)
    decreases |s| - i, 3
  {
    hide Leaf, Skip, Members, Matches, GapText, ValidGap, EntryText, EntriesText, EndText, From;
    var k, end := Skip(s, f, i).value, AfterMember(s, f, i, count).next;
    after := GapFound(s, f, i);
    rest, comma, tail := [], false, [];
    NoGap(f);
    OneByte(s, k);
    if Peek(s, k) == Ch('}') {
      NoEntries(false, [], f);
      Joined(s, i, GapText(after), k, [Ch('}')], end);
    } else {
      assert AfterMember(s, f, i, count) == MemberAfterComma(s, f, k + 1, count);
      var m := Skip(s, f, k + 1).value;
      var next := NextGap(s, f, k + 1, Ch('}'), count);
      if f.trailingCommas && Peek(s, m) == Ch('}') {
        comma, tail := true, next;
        OneByte(s, m);
        NoEntries(true, tail, f);
        Joined(s, k + 1, GapText(tail), m, [Ch('}')], end);
        Joined(s, k, [Ch(',')], k + 1, GapText(tail) + [Ch('}')], end);
        Joined(s, i, GapText(after), k, EntriesText([], true, tail), end);
      } else {
        var entries;
        entries, comma, tail := MembersSpelled(s, f, m, count);
        rest := [entries[0].(before := next)] + entries[1..];
        EntriesJoined(s, i, after, k, next, m, entries, comma, tail, end);
        ReplacedEntry(entries, rest[0], f);
      }
    }
  }

  /** A gap, a comma, another gap, and the entries after it. */
  lemma EntriesJoined(s: Bytes, i: nat, after: Gap, k: nat, next: Gap, m: nat, entries: seq<Entry>, comma: bool, tail: Gap, end: nat)
    requires entries != [] && From(s, i, GapText(after), k) && From(s, k, [Ch(',')], k + 1) && From(s, k + 1, GapText(next), m)
    requires From(s, m, NamedText(entries[0], entries[1..], comma, tail), end)
    ensures From(s, i, MoreText(after, [entries[0].(before := next)] + entries[1..], comma, tail), end)
  {
    hide From, GapText, EntriesText, StringText, ColonText;
    var x := entries[0].(before := next);
    var rest := [x] + entries[1..];
    assert rest[1..] == entries[1..];
    var named := NamedText(x, entries[1..], comma, tail);
    assert named == NamedText(entries[0], entries[1..], comma, tail) by {
      SameNamed(entries[0], next, entries[1..], comma, tail);
    }
    Joined(s, k + 1, GapText(next), m, named, end);
    Joined(s, k, [Ch(',')], k + 1, GapText(next) + named, end);
    EntriesSplit(rest, comma, tail);
    Joined(s, i, GapText(after), k, EntriesText(rest, comma, tail), end);
  }

  lemma SameNamed(x: Entry, before: Gap, rest: seq<Entry>, comma: bool, tail: Gap)
    ensures NamedText(x.(before := before), rest, comma, tail) == NamedText(x, rest, comma, tail)
  {
    hide StringText, GapText, TextOf, MoreText;
  }

  // ---- Texts ----

  /** `t` is a spelling of the text `s`. */
  predicate Spells(t: JsonText, s: Bytes, f: Flags) { ValidText(t, f) && WholeText(t) == s }

  /** Every JSON text is accepted, and its tree is the value that it writes. */
  lemma SpellingAccepted(t: JsonText, f: Flags)
    requires ValidText(t, f)
    ensures ParseEvents(WholeText(t), f).Accepted? && TreeOf(WholeText(t), f) == Meaning(t.value, f)
  {
    hide TextOf, GapText, ValidGap, ValidJson, Value, TreeAt, Skip, Matches, Meaning, NumberStops;
    var s, value, end := WholeText(t), TextOf(t.value), GapText(t.trail) + t.rest;
    Whole(s);
    var i := |GapText(t.lead)|;
    TextBegins(t.value, f);
    assert (value + end)[0] == value[0];
    GapThen(s, f, 0, t.lead, value + end);
    MatchesSplit(s, i, value, end);
    var j := i + |value|;
    MatchesSplit(s, j, GapText(t.trail), t.rest);
    var k := j + |GapText(t.trail)|;
    assert k + |t.rest| == |s|;
    RestPeek(s, k, t.rest);
    if f.stopWhenDone {
      GapNothing();
      assert Stops(t.value, Peek(s, j));
    } else {
      GapRead(s, f, j, t.trail, true);
      TrailStops(s, f, j, t.trail, t.value);
    }
    ValueRead(s, f, i, t.value);
  }

  lemma GapNothing()
    ensures GapText([]) == []
  {
  }

  lemma RestPeek(s: Bytes, k: nat, rest: Bytes)
    requires Matches(s, k, rest) && k + |rest| == |s|
    ensures Peek(s, k) == Peek(rest, 0)
  {
    if rest != [] {
      First(s, k, rest);
    }
  }

  lemma TrailStops(s: Bytes, f: Flags, i: nat, g: Gap, j: Json)
    requires ValidGap(g, f, true) && Matches(s, i, GapText(g)) && Peek(s, i + |GapText(g)|) == 0
    ensures Stops(j, Peek(s, i))
  {
    hide NumberStops, FillerText, ValidFiller;
    if g != [] {
      FillerBegins(g[0], f);
      First(s, i, GapText(g));
      AfterStops(j, Peek(s, i));
    } else {
      AfterStops(j, 0);
    }
  }

  /** Every accepted text is a JSON text. */
  lemma AcceptedSpelled(s: Bytes, f: Flags) returns (t: JsonText)
    requires ParseEvents(s, f).Accepted?
    ensures Spells(t, s, f) && TreeOf(s, f) == Meaning(t.value, f)
  {
    hide TextOf, GapText, ValidGap, ValidJson, Value, TreeAt, Skip, Matches, Meaning, NumberStops;
    var i := Skip(s, f, 0).value;
    var lead := GapFound(s, f, 0);
    var value := ValueSpelled(s, f, i);
    var j := Value(s, f, i).next;
    var trail: Gap, k := [], j;
    if f.stopWhenDone {
      GapNothing();
      EmptyMatches(s, j);
    } else {
      trail := GapSpelled(s, f, j);
      k := Skip(s, f, j).value;
    }
    t := JsonText(lead, value, trail, s[k..]);
    SliceMatches(s, k, |s|);
    assert s[k..|s|] == s[k..];
    assert Peek(s[k..], 0) == Peek(s, k);
    Joined(s, j, GapText(trail), k, s[k..], |s|);
    Joined(s, i, TextOf(value), j, GapText(trail) + s[k..], |s|);
    Joined(s, 0, GapText(lead), i, TextOf(value) + (GapText(trail) + s[k..]), |s|);
    SameText(s, WholeText(t));
    SpellingAccepted(t, f);
  }

  lemma SameText(s: Bytes, w: Bytes)
    requires From(s, 0, w, |s|)
    ensures s == w
  {
    forall k | 0 <= k < |s|
      ensures s[k] == w[k]
    {
      assert s[0 + k] == w[k];
    }
  }

  /** The document that a JSON text builds is the value that it writes, exactly if that is narrow. */
  lemma SpellingBuilt(t: JsonText, f: Flags)
    requires ValidText(t, f)
    ensures Build([], Told(ParseEvents(WholeText(t), f).events)) == Some([Meaning(t.value, f)]) <==> Narrow(Meaning(t.value, f))
  {
    hide ParseEvents, WholeText, TreeOf, Build, Told, Narrow, Meaning, ValidJson, ValidGap;
    SpellingAccepted(t, f);
    AcceptedBuildsOne(WholeText(t), f);
  }

  /** Exactly the JSON texts are accepted; each builds the value that it writes, and all spellings
      of a text write the same value. */
  lemma AcceptedIff(s: Bytes, f: Flags)
    ensures ParseEvents(s, f).Accepted? <==> exists t: JsonText :: Spells(t, s, f)
    ensures forall t: JsonText | Spells(t, s, f) :: ParseEvents(s, f).Accepted? && TreeOf(s, f) == Meaning(t.value, f)
  {
    hide ParseEvents, TreeOf, WholeText, Meaning, ValidJson, ValidGap;
    if ParseEvents(s, f).Accepted? {
      var t := AcceptedSpelled(s, f);
    }
    forall t: JsonText | Spells(t, s, f)
      ensures ParseEvents(s, f).Accepted? && TreeOf(s, f) == Meaning(t.value, f)
    {
      SpellingAccepted(t, f);
    }
  }
}
