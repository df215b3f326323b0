/**
 Every text that the XML parser accepts is the spelling of a document: from an accepted text
 its spelling is recovered.  With the other direction this says exactly which texts are accepted,
 and as which documents.
 */
module XmlTexts {
  import opened ByteStrings
  import opened XmlText
  import opened XmlParser
  import opened XmlRoundTrip
  import opened XmlSpelling
  import opened XmlLanguage

  /** `text` stands at `i`, and ends at `end`. */
  predicate From(s: Bytes, i: nat, text: Bytes, end: nat) { Matches(s, i, text) && i + |text| == end }

  lemma Chained(s: Bytes, i: nat, a: Bytes, m: nat, b: Bytes, end: nat)
    requires From(s, i, a, m) && From(s, m, b, end)
    ensures From(s, i, a + b, end)
  {
    hide Matches;
    MatchesSplit(s, i, a, b);
  }

  lemma Slice(s: Bytes, i: nat, j: nat)
    requires i <= j <= |s|
    ensures From(s, i, s[i..j], j)
  {
    SliceMatches(s, i, j);
  }

  lemma OneByte(s: Bytes, i: nat)
    requires i < |s|
    ensures From(s, i, [s[i]], i + 1)
  {
    OneMatches(s, i, s[i]);
  }

  // ---- White space and names ----

  lemma BlanksFound(s: Bytes, i: nat) returns (w: Bytes)
    requires i <= |s|
    ensures AllBlank(w) && From(s, i, w, SkipSpace(s, i)) && !Blank(Peek(s, SkipSpace(s, i)))
    ensures w == [] <==> !Blank(Peek(s, i))
  {
    var j := SkipSpace(s, i);
    w := s[i..j];
    Slice(s, i, j);
    if i < j {
      assert IsSpace(s[i]);
    }
  }

  lemma NameFound(s: Bytes, i: nat) returns (n: Bytes)
    requires i <= |s| && ParseName(s, i).Some?
    ensures var e := ParseName(s, i).value;
            && ValidName(n) && n == s[i..e] && From(s, i, n, e) && !NameLater(Peek(s, e)) && !Blank(Peek(s, i))
  {
    var e := ParseName(s, i).value;
    n := s[i..e];
    Slice(s, i, e);
  }

  // ---- Tags ----

  lemma {:induction false} TagFound(s: Bytes, i: nat, tag: Bytes)
    requires i <= |s| && FindTag(s, i, tag).Some?
    ensures var e := FindTag(s, i, tag).value;
            && From(s, i, s[i..e], e) && Matches(s, e, tag)
            && 0 !in s[i..e] && forall k :: i <= k < e ==> !Matches(s, k, tag)
    decreases |s| - i
  {
    hide Matches;
    var e := FindTag(s, i, tag).value;
    Slice(s, i, e);
    if i < e {
      TagFound(s, i + 1, tag);
      assert s[i..e] == [s[i]] + s[i + 1..e];
    }
  }

  /** The value before the first tag does not contain it. */
  lemma NotWithin(s: Bytes, i: nat, e: nat, tag: Bytes)
    requires i <= e <= |s| && tag != [] && forall k :: i <= k < e ==> !Matches(s, k, tag)
    ensures !Within(s[i..e], tag)
  {
    var raw := s[i..e];
    forall k: nat
      ensures !Matches(raw, k, tag)
    {
      if Matches(raw, k, tag) {
        forall m | 0 <= m < |tag|
          ensures s[i + k + m] == tag[m]
        {
          assert raw[k + m] == tag[m];
        }
        assert Matches(s, i + k, tag);
      }
    }
  }

  lemma AttributeFound(s: Bytes, i: nat) returns (a: AttributeSpelling)
    requires i <= |s| && ParseAttribute(s, SkipSpace(s, i)).Good?
    ensures ValidAttribute(a) && From(s, i, AttributeSpelt(a), ParseAttribute(s, SkipSpace(s, i)).next)
    ensures a.before == [] <==> !Blank(Peek(s, i))
    ensures ParseAttribute(s, SkipSpace(s, i)).value == AttributeMeaning(a)
  {
    hide Matches, Decoded, FindTag, AllBlank, ValidName, SkipSpace, From, ParseName;
    var j, next := SkipSpace(s, i), ParseAttribute(s, SkipSpace(s, i)).next;
    var before := BlanksFound(s, i);
    var name := NameFound(s, j);
    var end := ParseName(s, j).value;
    var equals := BlanksFound(s, end);
    var eq := SkipSpace(s, end);
    OneByte(s, eq);
    var gap := BlanksFound(s, eq + 1);
    var open := SkipSpace(s, eq + 1);
    OneByte(s, open);
    var q := [s[open]];
    TagFound(s, open + 1, q);
    var close := FindTag(s, open + 1, q).value;
    NotWithin(s, open + 1, close, q);
    var raw := s[open + 1..close];
    NoByteIn(raw, s[open]);
    OneMatches(s, close, s[open]);
    OneByte(s, close);
    a := AttributeSpelling(before, name, equals, gap, s[open] == 0x27, raw);
    assert QuoteOf(a.single) == s[open];
    Chained(s, open + 1, raw, close, q, next);
    Chained(s, open, q, open + 1, raw + q, next);
    Chained(s, eq + 1, gap, open, q + (raw + q), next);
    Chained(s, eq, [Ch('=')], eq + 1, gap + (q + (raw + q)), next);
    Chained(s, end, equals, eq, [Ch('=')] + (gap + (q + (raw + q))), next);
    Chained(s, j, name, end, equals + ([Ch('=')] + (gap + (q + (raw + q)))), next);
    Chained(s, i, before, j, name + (equals + ([Ch('=')] + (gap + (q + (raw + q))))), next);
  }

  lemma {:induction false} AttributesFound(s: Bytes, i: nat, sofar: seq<Attribute>)
    returns (xs: seq<AttributeSpelling>, end: Bytes)
    requires i <= |s| && ParseAttributes(s, i, sofar).Good?
    ensures (forall a <- xs :: ValidAttribute(a)) && NamesDiffer(xs, NamesOf(sofar)) && AllBlank(end)
    ensures var r := ParseAttributes(s, i, sofar);
            From(s, i, AttributesSpelt(xs) + (end + TagEnd(r.value.sealed)), r.next)
    ensures xs != [] && xs[0].before == [] ==> NameFirst(Peek(s, i))
    decreases |s| - i
  {
    hide Matches, ParseAttribute, AttributeSpelt, ValidAttribute, AllBlank, SkipSpace, From, NamesOf;
    var r, j := ParseAttributes(s, i, sofar), SkipSpace(s, i);
    if IsNameStart(Peek(s, j)) {
      var a := AttributeFound(s, i);
      var next := ParseAttribute(s, j).next;
      OneMore(sofar, a);
      var more;
      more, end := AttributesFound(s, next, sofar + [AttributeMeaning(a)]);
      xs := [a] + more;
      assert xs[1..] == more;
      var tail := end + TagEnd(r.value.sealed);
      Chained(s, i, AttributeSpelt(a), next, AttributesSpelt(more) + tail, r.next);
      Associates(AttributeSpelt(a), AttributesSpelt(more), tail);
      FirstAttribute(s, i, a);
    } else {
      xs := [];
      end := BlanksFound(s, i);
      TagEndFound(s, j, r.value.sealed);
      Chained(s, i, end, j, TagEnd(r.value.sealed), r.next);
      assert [] + (end + TagEnd(r.value.sealed)) == end + TagEnd(r.value.sealed);
    }
  }

  lemma FirstAttribute(s: Bytes, i: nat, a: AttributeSpelling)
    requires i <= |s| && IsNameStart(Peek(s, SkipSpace(s, i))) && (a.before == [] <==> !Blank(Peek(s, i)))
    ensures a.before == [] ==> NameFirst(Peek(s, i))
  {
    if a.before == [] {
      NoSpaceAt(s, i);
    }
  }

  lemma TagEndFound(s: Bytes, j: nat, sealed: bool)
    requires j < |s| && if sealed then s[j] == Ch('/') && Peek(s, j + 1) == Ch('>') else s[j] == Ch('>')
    ensures From(s, j, TagEnd(sealed), j + |TagEnd(sealed)|)
  {
    if sealed {
      assert TagEnd(true) == s[j..j + 2];
      Slice(s, j, j + 2);
    } else {
      OneByte(s, j);
    }
  }

  lemma HeadFound(s: Bytes, i: nat) returns (tag: TagSpelling)
    requires i <= |s| && ParseHead(s, i).Good?
    ensures var r := ParseHead(s, i);
            && ValidTag(tag) && From(s, i, TagSpelt(tag) + TagEnd(r.value.closing == Closed), r.next)
            && r.value == Head(tag.name, AttributeMeanings(tag.attributes), ClosingOf(tag.slash, r.value.closing == Closed))
  {
    hide Matches, AllBlank, SkipSpace, ParseName, ParseAttributes, ValidName, AttributesSpelt, AttributeMeanings, TagEnd;
    hide ValidAttribute, NamesDiffer, From, NamesOf;
    var r, j := ParseHead(s, i), SkipSpace(s, i);
    var pre := BlanksFound(s, i);
    var slash := Peek(s, j) == Ch('/');
    var at := if slash then j + 1 else j;
    var name := NameFound(s, at);
    var end := ParseName(s, at).value;
    var attributes, last := AttributesFound(s, end, []);
    var sealed := ParseAttributes(s, end, []).value.sealed;
    tag := TagSpelling(pre, slash, name, attributes, last);
    NotSlash(name);
    NameGoesOn(Peek(s, end));
    assert sealed <==> r.value.closing == Closed;
    var slashed := if slash then [Ch('/')] else [];
    assert From(s, j, slashed, at) by {
      if slash {
        OneByte(s, j);
      } else {
        Slice(s, j, j);
      }
    }
    var rest := AttributesSpelt(attributes) + (last + TagEnd(sealed));
    Chained(s, at, name, end, rest, r.next);
    Chained(s, j, slashed, at, name + rest, r.next);
    Chained(s, i, pre, j, slashed + (name + rest), r.next);
    TagThen(tag, sealed);
    HeadAgain(s, i, tag, sealed, r.next);
  }

  lemma NameGoesOn(c: Byte)
    ensures NameFirst(c) ==> NameLater(c)
  {
  }

  lemma HeadAgain(s: Bytes, i: nat, tag: TagSpelling, sealed: bool, next: nat)
    requires ValidTag(tag) && From(s, i, TagSpelt(tag) + TagEnd(sealed), next)
    ensures i <= |s|
    ensures ParseHead(s, i) == Good(Head(tag.name, AttributeMeanings(tag.attributes), ClosingOf(tag.slash, sealed)), next)
  {
    HeadReads(s, i, tag, sealed);
  }

  // ---- Nodes ----

  /** A list of nodes and what ends it: nothing more, or an end tag. */
  datatype ListSpelling = ListSpelling(kids: seq<NodeSpelling>, end: nat, lead: Bytes, tag: TagSpelling)

  /** `x` is a spelling of the list that starts at `i`. */
  ghost predicate Lists(s: Bytes, i: nat, top: bool, done: seq<Node>, x: ListSpelling)
    requires i <= |s|
  {
    && ValidList(x.kids, Headed(top, done)) && From(s, i, NodesSpelt(x.kids), x.end) && x.end <= |s|
    && (Peek(s, i) == Ch('<') && x.kids != [] ==> !x.kids[0].Characters? && x.kids[0].lead == [])
    && match Nodes(s, i, top, done)
       case Failed => false
       case AtEnd(all) =>
         all == done + NodeMeanings(x.kids) && !EndsInText(x.kids) && Peek(s, SkipSpace(s, x.end)) == 0
       case AtTag(all, name, next) =>
         && all == done + NodeMeanings(x.kids) && AllBlank(x.lead) && ValidTag(x.tag) && x.tag.slash && x.tag.name == name
         && From(s, x.end, EndSpelt(x.lead, x.tag), next)
         && (EndsInText(x.kids) || (x.kids == [] && Peek(s, i) == Ch('<')) ==> x.lead == [])
  }

  /** `x` is a spelling of the node at `i`, which ends at `next`. */
  ghost predicate Node1(s: Bytes, i: nat, top: bool, done: seq<Node>, x: NodeSpelling, next: nat)
    requires i <= |s|
  {
    && ValidSpelling(x) && (IsDeclaration(x) ==> Headed(top, done)) && From(s, i, NodeSpelt(x), next) && i < next <= |s|
    && (Peek(s, i) == Ch('<') ==> !x.Characters? && x.lead == [])
    && (x.Characters? ==> MarkupAt(s, next))
    && Nodes(s, i, top, done) == Nodes(s, next, top, done + [NodeMeaning(x)])
  }

  const NO_TAG := TagSpelling([], false, [], [], [])

  /** Where `<` stands there is no white space before the markup. */
  lemma LeadFound(s: Bytes, i: nat) returns (lead: Bytes)
    requires i <= |s|
    ensures AllBlank(lead) && From(s, i, lead, SkipSpace(s, i)) && (Peek(s, i) == Ch('<') ==> lead == [])
  {
    lead := BlanksFound(s, i);
  }

  lemma EndFound(s: Bytes, i: nat, top: bool, done: seq<Node>) returns (x: ListSpelling)
    requires i <= |s| && Identify(s, i).0 == NoNode
    ensures Lists(s, i, top, done, x)
  {
    hide Matches;
    x := ListSpelling([], i, [], NO_TAG);
    Slice(s, i, i);
    assert done + NodeMeanings([]) == done;
  }

  /** The parts of a tag that starts with `<`. */
  lemma MarkupFound(s: Bytes, i: nat) returns (lead: Bytes, tag: TagSpelling)
    requires i <= |s| && Identify(s, i).0 == ElementKind && ParseHead(s, Identify(s, i).1).Good?
    ensures var r := ParseHead(s, Identify(s, i).1);
            var sealed := r.value.closing == Closed;
            && AllBlank(lead) && (Peek(s, i) == Ch('<') ==> lead == []) && ValidTag(tag)
            && From(s, i, lead + ([Ch('<')] + (TagSpelt(tag) + TagEnd(sealed))), r.next)
            && r.value == Head(tag.name, AttributeMeanings(tag.attributes), ClosingOf(tag.slash, sealed))
  {
    hide Matches, AllBlank, SkipSpace, ParseHead, ValidTag, TagSpelt, TagEnd, From, AttributeMeanings;
    var k := SkipSpace(s, i);
    var r := ParseHead(s, k + 1);
    var sealed := r.value.closing == Closed;
    lead := LeadFound(s, i);
    tag := HeadFound(s, k + 1);
    OneByte(s, k);
    Chained(s, k, [Ch('<')], k + 1, TagSpelt(tag) + TagEnd(sealed), r.next);
    Chained(s, i, lead, k, [Ch('<')] + (TagSpelt(tag) + TagEnd(sealed)), r.next);
  }

  lemma CloseFound(s: Bytes, i: nat, top: bool, done: seq<Node>) returns (x: ListSpelling)
    requires i <= |s| && Identify(s, i).0 == ElementKind && ParseHead(s, Identify(s, i).1).Good?
    requires ParseHead(s, Identify(s, i).1).value.closing == CloseTag
    ensures Lists(s, i, top, done, x)
  {
    hide Matches, Identify, ParseHead, AllBlank, ValidTag, TagSpelt, AttributeMeanings;
    var lead, tag := MarkupFound(s, i);
    x := ListSpelling([], i, lead, tag);
    EmptyList(s, i, done, top);
  }

  lemma EmptyList(s: Bytes, i: nat, done: seq<Node>, top: bool)
    requires i <= |s|
    ensures From(s, i, NodesSpelt([]), i) && done + NodeMeanings([]) == done && ValidList([], Headed(top, done))
  {
    Slice(s, i, i);
  }

  lemma SealedFound(s: Bytes, i: nat, top: bool, done: seq<Node>) returns (x: NodeSpelling)
    requires i <= |s| && Identify(s, i).0 == ElementKind && ParseHead(s, Identify(s, i).1).Good?
    requires ParseHead(s, Identify(s, i).1).value.closing == Closed
    ensures Node1(s, i, top, done, x, ParseHead(s, Identify(s, i).1).next)
  {
    hide Matches, Identify, ParseHead, AllBlank, ValidTag, TagSpelt, AttributeMeanings;
    var lead, tag := MarkupFound(s, i);
    x := Sealed(lead, tag);
  }

  lemma LeafFound(s: Bytes, i: nat, top: bool, done: seq<Node>, kind: LeafKind) returns (x: NodeSpelling)
    requires i <= |s| && Identify(s, i).0 == KindOf(kind) && ParseLeaf(s, KindOf(kind), Identify(s, i).1).Good?
    requires WellLocated(ParseLeaf(s, KindOf(kind), Identify(s, i).1).value, top, done)
    ensures Node1(s, i, top, done, x, ParseLeaf(s, KindOf(kind), Identify(s, i).1).next)
  {
    hide Matches, AllBlank, SkipSpace, FindTag, Decoded, From, ValidLeaf, Header;
    var k, at := SkipSpace(s, i), Identify(s, i).1;
    var next := ParseLeaf(s, KindOf(kind), at).next;
    var e := FindTag(s, at, Footer(kind)).value;
    var raw := s[at..e];
    var lead := LeadFound(s, i);
    HeaderFound(s, i, kind);
    TagFound(s, at, Footer(kind));
    FooterFound(s, e, Footer(kind));
    RawValid(s, i, kind, e);
    x := Leaf(lead, kind, raw);
    Chained(s, at, raw, e, Footer(kind), next);
    Chained(s, k, Header(kind), at, raw + Footer(kind), next);
    Chained(s, i, lead, k, Header(kind) + (raw + Footer(kind)), next);
  }

  lemma FooterFound(s: Bytes, e: nat, tag: Bytes)
    requires Matches(s, e, tag)
    ensures From(s, e, tag, e + |tag|)
  {
  }

  lemma HeaderFound(s: Bytes, i: nat, kind: LeafKind)
    requires i <= |s| && Identify(s, i).0 == KindOf(kind)
    ensures From(s, SkipSpace(s, i), Header(kind), Identify(s, i).1)
  {
  }

  lemma RawValid(s: Bytes, i: nat, kind: LeafKind, e: nat)
    requires i <= |s| && Identify(s, i).0 == KindOf(kind) && Identify(s, i).1 <= e <= |s|
    requires var at := Identify(s, i).1; 0 !in s[at..e] && forall k :: at <= k < e ==> !Matches(s, k, Footer(kind))
    ensures ValidLeaf(kind, s[Identify(s, i).1..e])
  {
    hide Matches, Within, SkipSpace;
    var at := Identify(s, i).1;
    NotWithin(s, at, e, Footer(kind));
    if kind == UnknownLeaf {
      assert DTD_HEADER + DASHES == COMMENT_HEADER && DTD_HEADER + CDATA == CDATA_HEADER;
      NoLongHeader(s, SkipSpace(s, i), e, DASHES);
      NoLongHeader(s, SkipSpace(s, i), e, CDATA);
    }
  }

  lemma NoLongHeader(s: Bytes, k: nat, e: nat, more: Bytes)
    requires k + 2 <= e <= |s| && Matches(s, k, DTD_HEADER) && !Matches(s, k, DTD_HEADER + more)
    ensures !Matches(s[k + 2..e], 0, more)
  {
    MatchesSplit(s, k, DTD_HEADER, more);
    var raw := s[k + 2..e];
    if Matches(raw, 0, more) {
      forall m | 0 <= m < |more|
        ensures s[k + 2 + m] == more[m]
      {
        assert raw[0 + m] == more[m];
      }
    }
  }

  lemma CharactersFound(s: Bytes, i: nat, top: bool, done: seq<Node>) returns (x: NodeSpelling)
    requires i <= |s| && Identify(s, i).0 == TextKind && ParseLeaf(s, TextKind, i).Good?
    ensures Node1(s, i, top, done, x, ParseLeaf(s, TextKind, i).next)
  {
    hide Matches, FindTag, Decoded, AllBlank, Identify;
    var e := FindTag(s, i, [Ch('<')]).value;
    TagFound(s, i, [Ch('<')]);
    OneMatches(s, e, Ch('<'));
    NotWithin(s, i, e, [Ch('<')]);
    var raw := s[i..e];
    NoByteIn(raw, Ch('<'));
    InkFound(s, i, e);
    x := Characters(raw);
  }

  lemma InkFound(s: Bytes, i: nat, e: nat)
    requires i <= |s| && Identify(s, i).0 == TextKind && i <= e < |s| && s[e] == Ch('<')
    ensures !AllBlank(s[i..e])
  {
    var k := SkipSpace(s, i);
    assert s[i..e][k - i] == s[k];
  }

  lemma {:induction false} NestedFound(s: Bytes, i: nat, top: bool, done: seq<Node>) returns (x: NodeSpelling, next: nat)
    requires i <= |s| && Identify(s, i).0 == ElementKind && ParseHead(s, Identify(s, i).1).Good?
    requires ParseHead(s, Identify(s, i).1).value.closing == Open && !Nodes(s, i, top, done).Failed?
    ensures Node1(s, i, top, done, x, next)
    decreases |s| - i, 0
  {
    hide Matches, Identify, ParseHead, AllBlank, ValidTag, TagSpelt, AttributeMeanings, EndSpelt, From, NodesSpelt, NodeMeanings;
    var lead, tag := MarkupFound(s, i);
    var k := ParseHead(s, Identify(s, i).1).next;
    var inner := Nodes(s, k, false, []);
    assert inner.AtTag? && inner.name == tag.name;
    next := inner.next;
    var list := ListFound(s, k, false, []);
    x := Nested(lead, tag, list.kids, list.lead, list.tag);
    assert [] + NodeMeanings(list.kids) == NodeMeanings(list.kids);
    NestedText(s, i, x, k, list.end, next);
  }

  lemma NestedText(s: Bytes, i: nat, x: NodeSpelling, k: nat, end: nat, next: nat)
    requires x.Nested? && From(s, i, x.lead + ([Ch('<')] + (TagSpelt(x.tag) + [Ch('>')])), k)
    requires From(s, k, NodesSpelt(x.kids), end) && From(s, end, EndSpelt(x.close, x.end), next)
    ensures From(s, i, NodeSpelt(x), next)
  {
    hide From, TagSpelt, NodesSpelt, EndSpelt;
    var inner := NodesSpelt(x.kids) + EndSpelt(x.close, x.end);
    Chained(s, k, NodesSpelt(x.kids), end, EndSpelt(x.close, x.end), next);
    Chained(s, i, x.lead + ([Ch('<')] + (TagSpelt(x.tag) + [Ch('>')])), k, inner, next);
    Associates(x.lead, [Ch('<')] + (TagSpelt(x.tag) + [Ch('>')]), inner);
    Associates([Ch('<')], TagSpelt(x.tag) + [Ch('>')], inner);
    Associates(TagSpelt(x.tag), [Ch('>')], inner);
  }

  /** A node, and the list after it. */
  lemma ListJoined(s: Bytes, i: nat, top: bool, done: seq<Node>, x: NodeSpelling, next: nat, rest: ListSpelling)
    requires i <= |s| && Node1(s, i, top, done, x, next) && Lists(s, next, top, done + [NodeMeaning(x)], rest)
    ensures Lists(s, i, top, done, rest.(kids := [x] + rest.kids))
  {
    hide From, ValidSpelling, NodeSpelt, NodeMeaning, AllBlank, ValidTag, Nodes, EndSpelt, SkipSpace;
    var all := [x] + rest.kids;
    assert all[0] == x && all[1..] == rest.kids;
    StillHeaded(top, done, x);
    Chained(s, i, NodeSpelt(x), next, NodesSpelt(rest.kids), rest.end);
    Associates(done, [NodeMeaning(x)], NodeMeanings(rest.kids));
    if rest.kids != [] {
      assert all[|all| - 1] == rest.kids[|rest.kids| - 1];
    } else if x.Characters? {
      NotTheEnd(s, next, rest.end);
    }
  }

  lemma NotTheEnd(s: Bytes, next: nat, end: nat)
    requires MarkupAt(s, next) && From(s, next, NodesSpelt([]), end)
    ensures end == next && Peek(s, SkipSpace(s, end)) != 0
  {
    NoSpaceAt(s, next);
  }

  /** Whatever the parser takes for a list of nodes is a spelling of it. */
  lemma {:induction false} ListFound(s: Bytes, i: nat, top: bool, done: seq<Node>) returns (x: ListSpelling)
    requires i <= |s| && !Nodes(s, i, top, done).Failed?
    ensures Lists(s, i, top, done, x)
    decreases |s| - i, 2
  {
    hide Lists, Node1, Identify, ParseHead, ParseLeaf, WellLocated, NodeMeaning;
    var (kind, at) := Identify(s, i);
    if kind == NoNode {
      x := EndFound(s, i, top, done);
      return;
    }
    if kind == ElementKind && ParseHead(s, at).value.closing == CloseTag {
      x := CloseFound(s, i, top, done);
      return;
    }
    var node, next := NodeFound(s, i, top, done);
    NodeAdvances(s, i, top, done, node, next);
    var rest := ListFound(s, next, top, done + [NodeMeaning(node)]);
    ListJoined(s, i, top, done, node, next, rest);
    x := rest.(kids := [node] + rest.kids);
  }

  lemma NodeAdvances(s: Bytes, i: nat, top: bool, done: seq<Node>, x: NodeSpelling, next: nat)
    requires i <= |s| && Node1(s, i, top, done, x, next)
    ensures i < next <= |s| && Nodes(s, i, top, done) == Nodes(s, next, top, done + [NodeMeaning(x)])
  {
  }

  lemma {:induction false} NodeFound(s: Bytes, i: nat, top: bool, done: seq<Node>) returns (x: NodeSpelling, next: nat)
    requires i <= |s| && !Nodes(s, i, top, done).Failed? && Identify(s, i).0 != NoNode
    requires Identify(s, i).0 == ElementKind ==>
               ParseHead(s, Identify(s, i).1).Good? && ParseHead(s, Identify(s, i).1).value.closing != CloseTag
    ensures Node1(s, i, top, done, x, next)
    decreases |s| - i, 1
  {
    hide Node1, Identify, ParseHead, ParseLeaf, WellLocated;
    var (kind, at) := Identify(s, i);
    match kind {
      case ElementKind =>
        next := ParseHead(s, at).next;
        if ParseHead(s, at).value.closing == Closed {
          x := SealedFound(s, i, top, done);
        } else {
          x, next := NestedFound(s, i, top, done);
        }
      case TextKind =>
        next := ParseLeaf(s, kind, at).next;
        x := CharactersFound(s, i, top, done);
      case XmlKind =>
        next := ParseLeaf(s, kind, at).next;
        x := LeafFound(s, i, top, done, DeclarationLeaf);
      case CommentKind =>
        next := ParseLeaf(s, kind, at).next;
        x := LeafFound(s, i, top, done, CommentLeaf);
      case CDataKind =>
        next := ParseLeaf(s, kind, at).next;
        x := LeafFound(s, i, top, done, CDataLeaf);
      case DtdKind =>
        next := ParseLeaf(s, kind, at).next;
        x := LeafFound(s, i, top, done, UnknownLeaf);
    }
  }

  // ---- Documents ----

  /** Every spelling of a document is accepted, as that document. */
  lemma SpellingParsed(d: DocumentSpelling)
    requires ValidDocumentSpelling(d)
    ensures Parse(DocumentSpelt(d)) == Some(DocumentMeaning(d))
  {
    hide Matches, AllBlank, NodesSpelt, NodeMeanings, TailSpelt, Nodes, SkipSpace;
    var s, body := DocumentSpelt(d), BodySpelt(d);
    var mark := if d.bom then [0xEF, 0xBB, 0xBF] else [];
    var i := |d.lead|;
    var start := i + |mark|;
    Whole(s);
    BlanksThen(s, 0, d.lead, mark + body);
    MatchesSplit(s, i, mark, body);
    First(s, start, body);
    InBody(s, start, body, BOM);
    BodyParsed(s, start, d);
  }

  /** The same stands in a text and at the start of its rest. */
  lemma InBody(s: Bytes, i: nat, body: Bytes, w: Bytes)
    requires From(s, i, body, |s|)
    ensures Matches(s, i, w) <==> Matches(body, 0, w)
  {
    assert s[i..] == body;
  }

  lemma BodyParsed(s: Bytes, i: nat, d: DocumentSpelling)
    requires ValidDocumentSpelling(d) && From(s, i, BodySpelt(d), |s|)
    ensures i <= |s|
    ensures var r := Nodes(s, i, true, []); !r.Failed? && r.kids == NodeMeanings(d.kids)
  {
    hide Matches, AllBlank, NodesSpelt, NodeMeanings, Nodes, SkipSpace, EndSpelt, ValidTag;
    var m := i + |NodesSpelt(d.kids)|;
    MatchesSplit(s, i, NodesSpelt(d.kids), TailSpelt(d.tail));
    SliceOf(s, m, TailSpelt(d.tail));
    var all := NodeMeanings(d.kids);
    match d.tail {
      case Ends(blank, rest) => EndParsed(s, m, true, all, blank, rest);
      case Strays(lead, tag, rest) =>
        MatchesSplit(s, m, EndSpelt(lead, tag), rest);
        EndTagReads(s, m, true, all, lead, tag);
        if EndsInText(d.kids) {
          EndBegins(s, m, tag);
        }
    }
    NodesReads(s, i, true, [], d.kids);
    assert [] + all == all;
  }

  lemma EndParsed(s: Bytes, m: nat, top: bool, all: seq<Node>, blank: Bytes, rest: Bytes)
    requires AllBlank(blank) && Peek(rest, 0) == 0 && From(s, m, blank + rest, |s|)
    ensures m <= |s| && Nodes(s, m, top, all) == AtEnd(all)
  {
    MatchesSplit(s, m, blank, rest);
    var k := m + |blank|;
    if rest != [] {
      First(s, k, rest);
    }
    BlanksRead(s, m, blank);
  }

  /** Every accepted text is the spelling of its document. */
  lemma ParsedSpelled(s: Bytes) returns (d: DocumentSpelling)
    requires Parse(s).Some?
    ensures ValidDocumentSpelling(d) && DocumentSpelt(d) == s && DocumentMeaning(d) == Parse(s).value
  {
    hide Matches, AllBlank, NodesSpelt, NodeMeanings, Nodes, SkipSpace, ValidTag, EndSpelt, From, ValidSpelling;
    var i := SkipSpace(s, 0);
    var bom := Matches(s, i, BOM);
    var start := if bom then i + 3 else i;
    var lead := BlanksFound(s, 0);
    var x := ListFound(s, start, true, []);
    var tail := TailFound(s, start, x);
    d := DocumentSpelling(lead, bom, x.kids, tail);
    var mark := if bom then [0xEF, 0xBB, 0xBF] else [];
    assert From(s, i, mark, start) by {
      if bom {
        FooterFound(s, i, BOM);
      } else {
        Slice(s, i, i);
      }
    }
    Chained(s, start, NodesSpelt(x.kids), x.end, TailSpelt(tail), |s|);
    Chained(s, i, mark, start, BodySpelt(d), |s|);
    Chained(s, 0, lead, i, mark + BodySpelt(d), |s|);
    SameText(s, DocumentSpelt(d));
    BodyFirst(s, start, BodySpelt(d));
    InBody(s, start, BodySpelt(d), BOM);
    assert [] + NodeMeanings(x.kids) == NodeMeanings(x.kids);
  }

  lemma SameText(s: Bytes, w: Bytes)
    requires From(s, 0, w, |s|)
    ensures s == w
  {
    forall k | 0 <= k < |s|
      ensures s[k] == w[k]
    {
      assert s[0 + k] == w[k];
    }
  }

  lemma BodyFirst(s: Bytes, i: nat, body: Bytes)
    requires From(s, i, body, |s|)
    ensures Peek(body, 0) == Peek(s, i)
  {
    if body != [] {
      First(s, i, body);
    }
  }

  lemma TailFound(s: Bytes, i: nat, x: ListSpelling) returns (tail: TailSpelling)
    requires i <= |s| && Lists(s, i, true, [], x)
    ensures ValidTail(tail) && From(s, x.end, TailSpelt(tail), |s|)
    ensures EndsInText(x.kids) ==> tail.Strays? && tail.lead == []
  {
    hide Matches, AllBlank, NodesSpelt, NodeMeanings, SkipSpace, ValidTag, EndSpelt, ValidSpelling, Nodes;
    if Nodes(s, i, true, []).AtEnd? {
      var k := SkipSpace(s, x.end);
      var blank := BlanksFound(s, x.end);
      Slice(s, k, |s|);
      assert s[k..|s|] == s[k..];
      tail := Ends(blank, s[k..]);
      Chained(s, x.end, blank, k, s[k..], |s|);
    } else {
      var next := Nodes(s, i, true, []).next;
      Slice(s, next, |s|);
      assert s[next..|s|] == s[next..];
      tail := Strays(x.lead, x.tag, s[next..]);
      Chained(s, x.end, EndSpelt(x.lead, x.tag), next, s[next..], |s|);
    }
  }

  /** A text is accepted as a document exactly if it is a spelling of that document. */
  lemma ParsedIff(s: Bytes, document: Document)
    ensures Parse(s) == Some(document) <==>
            exists d :: ValidDocumentSpelling(d) && DocumentSpelt(d) == s && DocumentMeaning(d) == document
  {
    hide Parse, ValidDocumentSpelling, DocumentSpelt, DocumentMeaning;
    if Parse(s) == Some(document) {
      var d := ParsedSpelled(s);
    }
    if exists d :: ValidDocumentSpelling(d) && DocumentSpelt(d) == s && DocumentMeaning(d) == document {
      var d :| ValidDocumentSpelling(d) && DocumentSpelt(d) == s && DocumentMeaning(d) == document;
      SpellingParsed(d);
    }
  }

  // ---- In particular ----

  /** An element that is closed by a tag of another name is refused, wherever it stands, ... */
  lemma WrongEndTag(s: Bytes, i: nat, top: bool, done: seq<Node>, x: NodeSpelling, name: Bytes)
    requires x.Nested? && ValidSpelling(x) && ValidName(name) && name != x.tag.name
    requires Matches(s, i, NodeSpelt(x.(end := x.end.(name := name))))
    ensures i <= |s| && Nodes(s, i, top, done) == Failed
  {
    hide Matches, Identify, ParseHead, AllBlank, TagSpelt, AttributeMeanings, NodesSpelt, EndSpelt, NodeMeanings;
    var end := x.end.(name := name);
    OtherEnd(x, name);
    var inner := NodesSpelt(x.kids) + EndSpelt(x.close, end);
    var at := i + |x.lead| + 1;
    TagIdentified(s, i, x.lead, x.tag, [Ch('>')] + inner);
    Associates(TagSpelt(x.tag), [Ch('>')], inner);
    MatchesSplit(s, at, TagSpelt(x.tag) + TagEnd(false), inner);
    HeadReads(s, at, x.tag, false);
    var k := at + |TagSpelt(x.tag) + TagEnd(false)|;
    EndTagAfter(s, k, x.kids, x.close, end);
  }

  lemma OtherEnd(x: NodeSpelling, name: Bytes)
    requires x.Nested? && ValidSpelling(x) && ValidName(name)
    ensures ValidTag(x.end.(name := name)) && x.end.slash
  {
  }

  lemma EndTagAfter(s: Bytes, i: nat, kids: seq<NodeSpelling>, lead: Bytes, tag: TagSpelling)
    requires ValidList(kids, false) && AllBlank(lead) && ValidTag(tag) && tag.slash && (EndsInText(kids) ==> lead == [])
    requires Matches(s, i, NodesSpelt(kids) + EndSpelt(lead, tag))
    ensures i <= |s|
    ensures Nodes(s, i, false, []) == AtTag(NodeMeanings(kids), tag.name, i + |NodesSpelt(kids) + EndSpelt(lead, tag)|)
  {
    hide Matches, AllBlank, ValidTag, NodesSpelt, EndSpelt, NodeMeanings, Nodes;
    var m := i + |NodesSpelt(kids)|;
    MatchesSplit(s, i, NodesSpelt(kids), EndSpelt(lead, tag));
    EndTagReads(s, m, false, NodeMeanings(kids), lead, tag);
    if EndsInText(kids) {
      EndBegins(s, m, tag);
    }
    NodesReads(s, i, false, [], kids);
    assert [] + NodeMeanings(kids) == NodeMeanings(kids);
  }

  /** ... and so is one that the text does not close. */
  lemma Unclosed(s: Bytes, i: nat, top: bool, done: seq<Node>, lead: Bytes, tag: TagSpelling, kids: seq<NodeSpelling>, blank: Bytes,
                 rest: Bytes)
    requires AllBlank(lead) && ValidTag(tag) && !tag.slash && ValidList(kids, false) && !EndsInText(kids)
    requires AllBlank(blank) && Peek(rest, 0) == 0
    requires From(s, i, lead + ([Ch('<')] + (TagSpelt(tag) + ([Ch('>')] + (NodesSpelt(kids) + (blank + rest))))), |s|)
    ensures Nodes(s, i, top, done) == Failed
  {
    hide Matches, Identify, ParseHead, AllBlank, TagSpelt, AttributeMeanings, NodesSpelt, NodeMeanings, ValidTag;
    var inner := NodesSpelt(kids) + (blank + rest);
    var at := i + |lead| + 1;
    TagIdentified(s, i, lead, tag, [Ch('>')] + inner);
    Associates(TagSpelt(tag), [Ch('>')], inner);
    MatchesSplit(s, at, TagSpelt(tag) + TagEnd(false), inner);
    HeadReads(s, at, tag, false);
    var k := at + |TagSpelt(tag) + TagEnd(false)|;
    NeverClosed(s, k, kids, blank, rest);
  }

  lemma NeverClosed(s: Bytes, i: nat, kids: seq<NodeSpelling>, blank: Bytes, rest: Bytes)
    requires ValidList(kids, false) && !EndsInText(kids) && AllBlank(blank) && Peek(rest, 0) == 0
    requires From(s, i, NodesSpelt(kids) + (blank + rest), |s|)
    ensures i <= |s| && Nodes(s, i, false, []).AtEnd?
  {
    hide Matches, AllBlank, NodesSpelt, NodeMeanings, Nodes, SkipSpace;
    var m := i + |NodesSpelt(kids)|;
    MatchesSplit(s, i, NodesSpelt(kids), blank + rest);
    NodesReads(s, i, false, [], kids);
    EndParsed(s, m, false, [] + NodeMeanings(kids), blank, rest);
  }
}
