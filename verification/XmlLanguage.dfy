/**
 Every spelling of a list of nodes is read as these nodes.
 */
module XmlLanguage {
  import opened ByteStrings
  import opened XmlText
  import opened XmlParser
  import opened XmlRoundTrip
  import opened XmlSpelling

  // ---- White space and names ----

  lemma BlankIsSpace(c: Byte)
    ensures Blank(c) <==> IsSpace(c)
  {
  }

  lemma NameIsName(n: Bytes)
    ensures ValidName(n) <==> IsName(n)
  {
    if ValidName(n) {
      forall c <- n
        ensures IsNameChar(c)
      {
        var k :| 0 <= k < |n| && n[k] == c;
        assert NameLater(n[k]);
      }
    }
    if IsName(n) {
      forall k | 0 <= k < |n|
        ensures NameLater(n[k])
      {
        assert n[k] in n;
      }
    }
  }

  lemma {:induction false} BlanksRead(s: Bytes, i: nat, w: Bytes)
    requires AllBlank(w) && Matches(s, i, w) && !Blank(Peek(s, i + |w|))
    ensures i + |w| <= |s| && SkipSpace(s, i) == i + |w|
    decreases |w|
  {
    if w == [] {
      NoSpaceAt(s, i);
    } else {
      assert w == [w[0]] + w[1..];
      First(s, i, w);
      MatchesSplit(s, i, [w[0]], w[1..]);
      BlanksRead(s, i + 1, w[1..]);
    }
  }

  /** White space, and something after it. */
  lemma BlanksThen(s: Bytes, i: nat, w: Bytes, text: Bytes)
    requires AllBlank(w) && text != [] && !Blank(text[0]) && Matches(s, i, w + text)
    ensures var k := i + |w|; k < |s| && SkipSpace(s, i) == k && s[k] == Peek(s, k) == text[0] && Matches(s, k, text)
  {
    hide Matches;
    MatchesSplit(s, i, w, text);
    First(s, i + |w|, text);
    BlanksRead(s, i, w);
  }

  // ---- Tags ----

  lemma AttributeReads(s: Bytes, i: nat, a: AttributeSpelling)
    requires ValidAttribute(a) && Matches(s, i, AttributeSpelt(a))
    ensures i + |AttributeSpelt(a)| <= |s| && IsNameStart(Peek(s, SkipSpace(s, i)))
    ensures ParseAttribute(s, SkipSpace(s, i)) == Good(AttributeMeaning(a), i + |AttributeSpelt(a)|)
  {
    hide Matches, Decoded, FindTag, AllBlank, ValidName, SkipSpace, ParseName, QuoteOf, ParseAttribute;
    var q := QuoteOf(a.single);
    var quoted := [q] + (a.raw + [q]);
    var valued := [Ch('=')] + (a.gap + quoted);
    var j := i + |a.before|;
    NameStarts(a.name);
    BlanksThen(s, i, a.before, a.name + (a.equals + valued));
    var end := j + |a.name|;
    AttributeNamed(s, j, a.name, a.equals, valued);
    var eq := end + |a.equals|;
    MatchesSplit(s, eq, [Ch('=')], a.gap + quoted);
    QuoteIs(a.single);
    BlanksThen(s, eq + 1, a.gap, quoted);
    var open := eq + 1 + |a.gap|;
    QuotedReads(s, open, a.raw, q);
    AttributeStep(s, j, end, eq, open, open + 1 + |a.raw|);
  }

  /** The steps of XMLAttribute::ParseDeep. */
  lemma AttributeStep(s: Bytes, j: nat, end: nat, eq: nat, open: nat, close: nat)
    requires j < end < |s| && eq < open < close < |s| && end <= eq
    requires ParseName(s, j) == Some(end) && Peek(s, end) != 0 && SkipSpace(s, end) == eq && s[eq] == Ch('=')
    requires SkipSpace(s, eq + 1) == open && (s[open] == Ch('"') || s[open] == Ch('\''))
    requires FindTag(s, open + 1, [s[open]]) == Some(close)
    ensures ParseAttribute(s, j) == Good(Attribute(s[j..end], Decoded(s[open + 1..close], TEXT)), close + 1)
  {
    hide ParseName, SkipSpace, FindTag, Decoded;
  }

  lemma QuoteIs(single: bool)
    ensures !Blank(QuoteOf(single)) && (QuoteOf(single) == Ch('"') || QuoteOf(single) == Ch('\''))
  {
  }

  /** The name of an attribute, and the white space after it. */
  lemma AttributeNamed(s: Bytes, j: nat, name: Bytes, blank: Bytes, rest: Bytes)
    requires ValidName(name) && AllBlank(blank) && Matches(s, j, name + (blank + rest)) && rest != [] && rest[0] == Ch('=')
    ensures var end := j + |name|;
            && end < |s| && ParseName(s, j) == Some(end) && s[j..end] == name && Peek(s, end) != 0
            && SkipSpace(s, end) == end + |blank| && Peek(s, end + |blank|) == Ch('=') && Matches(s, end + |blank|, rest)
  {
    hide Matches, AllBlank, SkipSpace, ParseName, IsName, ValidName;
    var end := j + |name|;
    MatchesSplit(s, j, name, blank + rest);
    AfterNameBlank(s, end, blank, rest);
    NameIsName(name);
    NameRead(s, j, name);
    BlanksThen(s, end, blank, rest);
  }

  lemma QuotedReads(s: Bytes, i: nat, raw: Bytes, quote: Byte)
    requires 0 !in raw && quote !in raw && quote != 0 && Matches(s, i, [quote] + (raw + [quote]))
    ensures var close := i + 1 + |raw|;
            close < |s| && FindTag(s, i + 1, [quote]) == Some(close) && s[i + 1..close] == raw
  {
    hide Matches, FindTag;
    MatchesSplit(s, i, [quote], raw + [quote]);
    NoByteInside(raw, quote);
    FindEnd(s, i + 1, raw, [quote]);
    MatchesSplit(s, i + 1, raw, [quote]);
    SliceOf(s, i + 1, raw);
  }

  lemma NameStarts(n: Bytes)
    requires ValidName(n)
    ensures n != [] && !Blank(n[0]) && IsNameStart(n[0])
  {
  }

  /** A name ends where white space or something else that cannot be in it begins. */
  lemma AfterNameBlank(s: Bytes, i: nat, w: Bytes, text: Bytes)
    requires AllBlank(w) && text != [] && !NameLater(text[0]) && Matches(s, i, w + text)
    ensures i < |s| && !IsNameChar(Peek(s, i)) && (text[0] != 0 ==> Peek(s, i) != 0)
  {
    First(s, i, w + text);
  }

  function NamesOf(attributes: seq<Attribute>): set<Bytes> { set a <- attributes :: a.name }

  lemma {:induction false} AttributesReads(s: Bytes, i: nat, sofar: seq<Attribute>, xs: seq<AttributeSpelling>, end: Bytes,
                                           sealed: bool)
    requires (forall a <- xs :: ValidAttribute(a)) && NamesDiffer(xs, NamesOf(sofar)) && AllBlank(end)
    requires Matches(s, i, AttributesSpelt(xs) + (end + TagEnd(sealed)))
    ensures i <= |s|
    ensures ParseAttributes(s, i, sofar)
            == Good(Tag(sofar + AttributeMeanings(xs), sealed), i + |AttributesSpelt(xs) + (end + TagEnd(sealed))|)
    decreases |xs|
  {
    hide Matches, ParseAttributes, AttributeSpelt, ValidAttribute, AllBlank, AttributeMeaning, NamesOf;
    var rest := end + TagEnd(sealed);
    if xs == [] {
      assert [] + rest == rest;
      EndReads(s, i, sofar, end, sealed);
      assert sofar + AttributeMeanings(xs) == sofar;
    } else {
      var a := xs[0];
      var first, more := AttributeSpelt(a), AttributesSpelt(xs[1..]);
      assert a in xs && forall x <- xs[1..] :: x in xs;
      Associates(first, more, rest);
      MatchesSplit(s, i, first, more + rest);
      OneReads(s, i, sofar, a);
      OneMore(sofar, a);
      AttributesReads(s, i + |first|, sofar + [AttributeMeaning(a)], xs[1..], end, sealed);
      Associates(sofar, [AttributeMeaning(a)], AttributeMeanings(xs[1..]));
    }
  }

  lemma OneReads(s: Bytes, i: nat, sofar: seq<Attribute>, a: AttributeSpelling)
    requires ValidAttribute(a) && Matches(s, i, AttributeSpelt(a)) && a.name !in NamesOf(sofar)
    ensures i + |AttributeSpelt(a)| <= |s|
    ensures ParseAttributes(s, i, sofar) == ParseAttributes(s, i + |AttributeSpelt(a)|, sofar + [AttributeMeaning(a)])
  {
    hide Matches, ParseAttribute, AttributeSpelt, ValidAttribute, SkipSpace, Decoded;
    AttributeReads(s, i, a);
    OneMore(sofar, a);
  }

  lemma OneMore(sofar: seq<Attribute>, a: AttributeSpelling)
    ensures HasName(sofar, a.name) <==> a.name in NamesOf(sofar)
    ensures NamesOf(sofar + [AttributeMeaning(a)]) == NamesOf(sofar) + {a.name}
  {
  }

  lemma EndReads(s: Bytes, i: nat, sofar: seq<Attribute>, end: Bytes, sealed: bool)
    requires AllBlank(end) && Matches(s, i, end + TagEnd(sealed))
    ensures i <= |s| && ParseAttributes(s, i, sofar) == Good(Tag(sofar, sealed), i + |end + TagEnd(sealed)|)
  {
    hide Matches, ParseAttribute, AllBlank, SkipSpace;
    var k := i + |end|;
    BlanksThen(s, i, end, TagEnd(sealed));
    SliceOf(s, k, TagEnd(sealed));
    if sealed {
      assert s[k + 1] == s[k..k + 2][1];
    }
  }

  /** What the parser takes a tag for. */
  function ClosingOf(slash: bool, sealed: bool): Closing { if sealed then Closed else if slash then CloseTag else Open }

  lemma HeadReads(s: Bytes, i: nat, tag: TagSpelling, sealed: bool)
    requires ValidTag(tag) && Matches(s, i, TagSpelt(tag) + TagEnd(sealed))
    ensures i <= |s|
    ensures ParseHead(s, i) == Good(Head(tag.name, AttributeMeanings(tag.attributes), ClosingOf(tag.slash, sealed)),
                                    i + |TagSpelt(tag) + TagEnd(sealed)|)
  {
    hide Matches, AllBlank, SkipSpace, ParseName, ParseAttributes, ValidName, AttributesSpelt, AttributeMeanings, TagEnd;
    hide ValidAttribute, NamesDiffer;
    var slash := if tag.slash then [Ch('/')] else [];
    var attributes := AttributesSpelt(tag.attributes);
    var last := tag.end + TagEnd(sealed);
    var named := tag.name + (attributes + last);
    TagThen(tag, sealed);
    NameStarts(tag.name);
    BlanksThen(s, i, tag.pre, slash + named);
    var j := i + |tag.pre|;
    MatchesSplit(s, j, slash, named);
    var at := j + |slash|;
    MatchesSplit(s, at, tag.name, attributes + last);
    var end := at + |tag.name|;
    AfterTagName(tag, sealed);
    First(s, end, attributes + last);
    NameIsName(tag.name);
    NameRead(s, at, tag.name);
    First(s, at, tag.name);
    NotSlash(tag.name);
    AttributesReads(s, end, [], tag.attributes, tag.end, sealed);
    assert [] + AttributeMeanings(tag.attributes) == AttributeMeanings(tag.attributes);
  }

  lemma NotSlash(n: Bytes)
    requires ValidName(n)
    ensures n[0] != Ch('/') && NamesOf([]) == {}
  {
  }

  lemma TagThen(tag: TagSpelling, sealed: bool)
    ensures TagSpelt(tag) + TagEnd(sealed)
            == tag.pre + ((if tag.slash then [Ch('/')] else []) + (tag.name + (AttributesSpelt(tag.attributes) + (tag.end + TagEnd(sealed)))))
  {
    hide TagEnd, AttributesSpelt;
    var t := TagEnd(sealed);
    var slash := if tag.slash then [Ch('/')] else [];
    var c := AttributesSpelt(tag.attributes) + tag.end;
    Associates(tag.pre, slash + (tag.name + c), t);
    Associates(slash, tag.name + c, t);
    Associates(tag.name, c, t);
    Associates(AttributesSpelt(tag.attributes), tag.end, t);
  }

  lemma AfterTagName(tag: TagSpelling, sealed: bool)
    requires ValidTag(tag)
    ensures var text := AttributesSpelt(tag.attributes) + (tag.end + TagEnd(sealed)); text != [] && !IsNameChar(text[0])
  {
    if tag.attributes != [] {
      var a := tag.attributes[0];
      assert a in tag.attributes && Blank(a.before[0]);
      assert AttributeSpelt(a)[0] == a.before[0];
    } else if tag.end != [] {
      assert Blank(tag.end[0]);
    }
  }

  // ---- Nodes ----

  /** What stands after `<` in a tag. */
  lemma TagBegins(tag: TagSpelling, rest: Bytes)
    requires ValidTag(tag)
    ensures var text := TagSpelt(tag) + rest; text != [] && text[0] != Ch('?') && text[0] != Ch('!') && text[0] != 0
  {
    if tag.pre != [] {
      assert Blank(tag.pre[0]);
    }
  }

  lemma TagIdentified(s: Bytes, i: nat, lead: Bytes, tag: TagSpelling, rest: Bytes)
    requires AllBlank(lead) && ValidTag(tag) && Matches(s, i, lead + ([Ch('<')] + (TagSpelt(tag) + rest)))
    ensures i <= |s| && Identify(s, i) == (ElementKind, i + |lead| + 1) && Matches(s, i + |lead| + 1, TagSpelt(tag) + rest)
    ensures i + |lead| + 1 < |s|
  {
    hide Matches, TagSpelt, AllBlank, ValidTag, SkipSpace;
    var k := i + |lead|;
    BlanksThen(s, i, lead, [Ch('<')] + (TagSpelt(tag) + rest));
    MatchesSplit(s, k, [Ch('<')], TagSpelt(tag) + rest);
    TagBegins(tag, rest);
    First(s, k + 1, TagSpelt(tag) + rest);
    IdentifyElement(s, k);
    SameIdentify(s, i, k);
  }

  /** Identify skips white space first. */
  lemma SameIdentify(s: Bytes, i: nat, k: nat)
    requires i <= |s| && SkipSpace(s, i) == k && Identify(s, k).0 != TextKind
    ensures Identify(s, i) == Identify(s, k)
  {
    hide Matches;
    NoSpaceAt(s, k);
  }

  function KindOf(kind: LeafKind): Kind
  {
    match kind
    case DeclarationLeaf => XmlKind
    case CommentLeaf => CommentKind
    case CDataLeaf => CDataKind
    case UnknownLeaf => DtdKind
  }

  lemma LeafIdentified(s: Bytes, i: nat, kind: LeafKind, raw: Bytes)
    requires ValidLeaf(kind, raw) && Matches(s, i, Header(kind) + (raw + Footer(kind)))
    ensures i <= |s| && Identify(s, i) == (KindOf(kind), i + |Header(kind)|)
  {
    hide Within, Identify;
    MatchesSplit(s, i, Header(kind), raw + Footer(kind));
    match kind
    case DeclarationLeaf => IdentifyRead(s, i, XML_HEADER, XmlKind);
    case CommentLeaf => IdentifyRead(s, i, COMMENT_HEADER, CommentKind);
    case CDataLeaf => IdentifyRead(s, i, CDATA_HEADER, CDataKind);
    case UnknownLeaf => UnknownIdentified(s, i, raw);
  }

  lemma UnknownIdentified(s: Bytes, i: nat, raw: Bytes)
    requires ValidLeaf(UnknownLeaf, raw) && Matches(s, i, DTD_HEADER + (raw + DTD_END))
    ensures Identify(s, i) == (DtdKind, i + 2)
  {
    hide Matches, Identify;
    NoByteIn(raw, Ch('>'));
    Associates(DTD_HEADER, raw, DTD_END);
    HeaderNotMade(s, i, raw, DASHES);
    HeaderNotMade(s, i, raw, CDATA);
    assert DTD_HEADER + DASHES == COMMENT_HEADER && DTD_HEADER + CDATA == CDATA_HEADER;
    MatchesSplit(s, i, DTD_HEADER, raw + DTD_END);
    IdentifyRead(s, i, DTD_HEADER, DtdKind);
  }

  lemma NoByteIn(raw: Bytes, c: Byte)
    ensures !Within(raw, [c]) <==> c !in raw
  {
    forall k: nat
      ensures Matches(raw, k, [c]) <==> k < |raw| && raw[k] == c
    {
      OneMatches(raw, k, c);
    }
  }

  lemma FooterEnds(kind: LeafKind)
    ensures EndsUniquely(Footer(kind))
  {
  }

  lemma WithinContains(raw: Bytes, tag: Bytes)
    ensures Within(raw, tag) <==> Contains(raw, tag)
  {
  }

  /** A leaf, without the white space before it. */
  lemma LeafParsed(s: Bytes, i: nat, kind: LeafKind, raw: Bytes)
    requires ValidLeaf(kind, raw) && Matches(s, i, Header(kind) + (raw + Footer(kind)))
    ensures var at, end := i + |Header(kind)|, i + |Header(kind) + (raw + Footer(kind))|;
            at <= |s| && ParseLeaf(s, KindOf(kind), at) == Good(NodeMeaning(Leaf([], kind, raw)), end)
  {
    hide Within, Contains, Matches, Decoded, FindTag;
    var at := i + |Header(kind)|;
    MatchesSplit(s, i, Header(kind), raw + Footer(kind));
    FooterEnds(kind);
    WithinContains(raw, Footer(kind));
    FindEnd(s, at, raw, Footer(kind));
    MatchesSplit(s, at, raw, Footer(kind));
    SliceOf(s, at, raw);
  }

  lemma HeaderBegins(kind: LeafKind, rest: Bytes)
    ensures var text := Header(kind) + rest; |text| > 1 && text[0] == Ch('<') && text[1] != 0
  {
  }

  lemma LeafReads(s: Bytes, i: nat, top: bool, done: seq<Node>, x: NodeSpelling)
    requires x.Leaf? && ValidSpelling(x) && Matches(s, i, NodeSpelt(x)) && (IsDeclaration(x) ==> Headed(top, done))
    ensures i + |NodeSpelt(x)| <= |s| && Nodes(s, i, top, done) == Nodes(s, i + |NodeSpelt(x)|, top, done + [NodeMeaning(x)])
  {
    hide Matches, Identify, ParseLeaf, AllBlank, ValidLeaf, SkipSpace, Header, Footer;
    var k, text := i + |x.lead|, Header(x.kind) + (x.raw + Footer(x.kind));
    HeaderBegins(x.kind, x.raw + Footer(x.kind));
    BlanksThen(s, i, x.lead, text);
    LeafIdentified(s, k, x.kind, x.raw);
    LeafParsed(s, k, x.kind, x.raw);
    SliceOf(s, k, text);
    SameIdentify(s, i, k);
    LeafMeaning(x);
  }

  /** Only declarations so far, at the top. */
  predicate Headed(top: bool, done: seq<Node>) { top && forall k <- done :: k.Declaration? }

  lemma LeafMeaning(x: NodeSpelling)
    requires x.Leaf?
    ensures NodeMeaning(x) == NodeMeaning(Leaf([], x.kind, x.raw))
    ensures NodeMeaning(x).Declaration? <==> IsDeclaration(x)
  {
    hide Decoded;
  }

  lemma InkLater(raw: Bytes)
    requires raw != [] && Blank(raw[0]) && !AllBlank(raw)
    ensures !AllBlank(raw[1..])
  {
    var k :| 0 <= k < |raw| && !Blank(raw[k]);
    assert raw[1..][k - 1] == raw[k];
  }

  lemma {:induction false} SomeInk(s: Bytes, i: nat, raw: Bytes)
    requires ValidCharacters(raw) && Matches(s, i, raw)
    ensures i <= |s| && i <= SkipSpace(s, i) < i + |raw| && s[SkipSpace(s, i)] in raw
    decreases |raw|
  {
    assert raw != [];
    First(s, i, raw);
    if Blank(raw[0]) {
      var rest := raw[1..];
      assert raw == [raw[0]] + rest;
      MatchesSplit(s, i, [raw[0]], rest);
      InkLater(raw);
      SomeInk(s, i + 1, rest);
    } else {
      NoSpaceAt(s, i);
      assert raw[0] in raw;
    }
  }

  lemma TextIdentified(s: Bytes, i: nat, raw: Bytes)
    requires ValidCharacters(raw) && Matches(s, i, raw)
    ensures i <= |s| && Identify(s, i) == (TextKind, i)
  {
    SomeInk(s, i, raw);
    var k := SkipSpace(s, i);
    forall header | header in [XML_HEADER, COMMENT_HEADER, CDATA_HEADER, DTD_HEADER]
      ensures !Matches(s, k, header)
    {
      Mismatch(s, k, header, 0);
    }
  }

  /** Text is only complete when markup follows it. */
  predicate MarkupAt(s: Bytes, i: nat) { i + 1 < |s| && s[i] == Ch('<') && s[i + 1] != 0 }

  lemma CharactersReads(s: Bytes, i: nat, top: bool, done: seq<Node>, raw: Bytes)
    requires ValidCharacters(raw) && Matches(s, i, raw) && MarkupAt(s, i + |raw|)
    ensures Nodes(s, i, top, done) == Nodes(s, i + |raw|, top, done + [NodeMeaning(Characters(raw))])
  {
    hide Identify, Decoded, FindTag, Matches, AllBlank;
    TextIdentified(s, i, raw);
    var e := i + |raw|;
    NoByteInside(raw, Ch('<'));
    OneMatches(s, e, Ch('<'));
    MatchesSplit(s, i, raw, [Ch('<')]);
    FindEnd(s, i, raw, [Ch('<')]);
    SliceOf(s, i, raw);
    assert ParseCharacters(s, i) == Good(Decoded(raw, TEXT), e);
    assert ParseLeaf(s, TextKind, i) == Good(Text(Decoded(raw, TEXT), false), e);
  }

  lemma SealedReads(s: Bytes, i: nat, top: bool, done: seq<Node>, x: NodeSpelling)
    requires x.Sealed? && ValidSpelling(x) && Matches(s, i, NodeSpelt(x))
    ensures i + |NodeSpelt(x)| <= |s| && Nodes(s, i, top, done) == Nodes(s, i + |NodeSpelt(x)|, top, done + [NodeMeaning(x)])
  {
    hide Matches, Identify, ParseHead, AllBlank, ValidTag, TagSpelt, AttributeMeanings;
    TagIdentified(s, i, x.lead, x.tag, TagEnd(true));
    HeadReads(s, i + |x.lead| + 1, x.tag, true);
    SliceOf(s, i, NodeSpelt(x));
  }

  /** An end tag ends the list that it stands in. */
  lemma EndTagReads(s: Bytes, i: nat, top: bool, done: seq<Node>, lead: Bytes, tag: TagSpelling)
    requires AllBlank(lead) && ValidTag(tag) && tag.slash && Matches(s, i, EndSpelt(lead, tag))
    ensures i < |s| && Nodes(s, i, top, done) == AtTag(done, tag.name, i + |EndSpelt(lead, tag)|)
  {
    hide Matches, Identify, ParseHead, AllBlank, ValidTag, TagSpelt, AttributeMeanings;
    TagIdentified(s, i, lead, tag, TagEnd(false));
    HeadReads(s, i + |lead| + 1, tag, false);
  }

  lemma MarkupBegins(s: Bytes, i: nat, text: Bytes)
    requires |text| > 1 && text[0] == Ch('<') && text[1] != 0 && Matches(s, i, text)
    ensures MarkupAt(s, i)
  {
    assert s[i + 0] == text[0] && s[i + 1] == text[1];
  }

  /** Nodes that are not text start with markup, and so do end tags. */
  lemma NodeBegins(s: Bytes, i: nat, x: NodeSpelling)
    requires ValidSpelling(x) && !x.Characters? && x.lead == [] && Matches(s, i, NodeSpelt(x))
    ensures MarkupAt(s, i)
  {
    hide Matches, TagSpelt, Header, Footer, NodesSpelt, EndSpelt;
    match x
    case Nested(_, tag, kids, close, end) =>
      var rest := [Ch('>')] + (NodesSpelt(kids) + EndSpelt(close, end));
      TagBegins(tag, rest);
      assert NodeSpelt(x) == [Ch('<')] + (TagSpelt(tag) + rest);
      MarkupBegins(s, i, NodeSpelt(x));
    case Sealed(_, tag) =>
      TagBegins(tag, [Ch('/'), Ch('>')]);
      assert NodeSpelt(x) == [Ch('<')] + (TagSpelt(tag) + [Ch('/'), Ch('>')]);
      MarkupBegins(s, i, NodeSpelt(x));
    case Leaf(_, kind, raw) =>
      HeaderBegins(kind, raw + Footer(kind));
      assert NodeSpelt(x) == Header(kind) + (raw + Footer(kind));
      MarkupBegins(s, i, NodeSpelt(x));
  }

  lemma EndBegins(s: Bytes, i: nat, tag: TagSpelling)
    requires ValidTag(tag) && Matches(s, i, EndSpelt([], tag))
    ensures MarkupAt(s, i)
  {
    hide Matches, TagSpelt;
    TagBegins(tag, [Ch('>')]);
    assert EndSpelt([], tag) == [Ch('<')] + (TagSpelt(tag) + [Ch('>')]);
    MarkupBegins(s, i, EndSpelt([], tag));
  }

  /** An element with children, up to its end tag. */
  lemma {:induction false} NestedReads(s: Bytes, i: nat, top: bool, done: seq<Node>, x: NodeSpelling)
    requires x.Nested? && ValidSpelling(x) && Matches(s, i, NodeSpelt(x))
    ensures i + |NodeSpelt(x)| <= |s| && Nodes(s, i, top, done) == Nodes(s, i + |NodeSpelt(x)|, top, done + [NodeMeaning(x)])
    decreases x, 0
  {
    hide Matches, Identify, ParseHead, AllBlank, ValidTag, TagSpelt, AttributeMeanings, NodesSpelt, EndSpelt, NodeMeanings;
    hide Nodes;
    var inner := NodesSpelt(x.kids) + EndSpelt(x.close, x.end);
    var rest := [Ch('>')] + inner;
    var at := i + |x.lead| + 1;
    TagIdentified(s, i, x.lead, x.tag, rest);
    Associates(TagSpelt(x.tag), [Ch('>')], inner);
    MatchesSplit(s, at, TagSpelt(x.tag) + TagEnd(false), inner);
    HeadReads(s, at, x.tag, false);
    var k := at + |TagSpelt(x.tag) + TagEnd(false)|;
    InnerReads(s, k, x);
    SliceOf(s, i, NodeSpelt(x));
    NestedStep(s, i, top, done, at, NodeMeaning(x), k, i + |NodeSpelt(x)|);
  }

  /** An element from its head, its children and the end tag that bears its name. */
  lemma NestedStep(s: Bytes, i: nat, top: bool, done: seq<Node>, at: nat, node: Node, k: nat, end: nat)
    requires node.Element? && i <= |s| && at <= |s| && k <= |s| && Identify(s, i) == (ElementKind, at)
    requires ParseHead(s, at) == Good(Head(node.name, node.attributes, Open), k)
    requires Nodes(s, k, false, []) == AtTag(node.kids, node.name, end)
    ensures end <= |s| && Nodes(s, i, top, done) == Nodes(s, end, top, done + [node])
  {
    hide Identify, ParseHead;
  }

  lemma {:induction false} InnerReads(s: Bytes, i: nat, x: NodeSpelling)
    requires x.Nested? && ValidSpelling(x) && Matches(s, i, NodesSpelt(x.kids) + EndSpelt(x.close, x.end))
    ensures i <= |s|
    ensures Nodes(s, i, false, [])
            == AtTag(NodeMeanings(x.kids), x.end.name, i + |NodesSpelt(x.kids) + EndSpelt(x.close, x.end)|)
    decreases x.kids, 2
  {
    hide Matches, AllBlank, ValidTag, NodesSpelt, EndSpelt, NodeMeanings, Nodes;
    var m := i + |NodesSpelt(x.kids)|;
    MatchesSplit(s, i, NodesSpelt(x.kids), EndSpelt(x.close, x.end));
    EndTagReads(s, m, false, NodeMeanings(x.kids), x.close, x.end);
    if EndsInText(x.kids) {
      EndBegins(s, m, x.end);
    }
    NodesReads(s, i, false, [], x.kids);
    assert [] + NodeMeanings(x.kids) == NodeMeanings(x.kids);
  }

  /** Every spelling of a list of nodes adds exactly these nodes. */
  lemma {:induction false} NodesReads(s: Bytes, i: nat, top: bool, done: seq<Node>, xs: seq<NodeSpelling>)
    requires ValidList(xs, Headed(top, done)) && Matches(s, i, NodesSpelt(xs))
    requires EndsInText(xs) ==> MarkupAt(s, i + |NodesSpelt(xs)|)
    ensures i + |NodesSpelt(xs)| <= |s|
    ensures Nodes(s, i, top, done) == Nodes(s, i + |NodesSpelt(xs)|, top, done + NodeMeanings(xs))
    decreases xs, 1
  {
    hide Matches, Nodes, NodeSpelt, NodeMeaning;
    if xs == [] {
      assert done + NodeMeanings(xs) == done;
      SliceOf(s, i, []);
    } else {
      var x, next := xs[0], i + |NodeSpelt(xs[0])|;
      MatchesSplit(s, i, NodeSpelt(x), NodesSpelt(xs[1..]));
      if x.Characters? {
        TextThen(s, next, xs);
      }
      NodeReads(s, i, top, done, x);
      StillHeaded(top, done, x);
      NodesReads(s, next, top, done + [NodeMeaning(x)], xs[1..]);
      Associates(done, [NodeMeaning(x)], NodeMeanings(xs[1..]));
    }
  }

  lemma StillHeaded(top: bool, done: seq<Node>, x: NodeSpelling)
    ensures Headed(top, done + [NodeMeaning(x)]) <==> Headed(top, done) && IsDeclaration(x)
  {
    hide Decoded, AttributeMeanings;
    var n := NodeMeaning(x);
    assert n.Declaration? <==> IsDeclaration(x);
    assert n in done + [n] && forall k <- done :: k in done + [n];
  }

  /** What follows text. */
  lemma TextThen(s: Bytes, next: nat, xs: seq<NodeSpelling>)
    requires xs != [] && xs[0].Characters? && ValidList(xs, false) && Matches(s, next, NodesSpelt(xs[1..]))
    requires |xs| == 1 ==> MarkupAt(s, next)
    ensures MarkupAt(s, next)
  {
    hide Matches, NodeSpelt;
    if |xs| > 1 {
      MatchesSplit(s, next, NodeSpelt(xs[1]), NodesSpelt(xs[2..]));
      assert xs[1..][0] == xs[1] && xs[1..][1..] == xs[2..];
      NodeBegins(s, next, xs[1]);
    }
  }

  lemma {:induction false} NodeReads(s: Bytes, i: nat, top: bool, done: seq<Node>, x: NodeSpelling)
    requires ValidSpelling(x) && Matches(s, i, NodeSpelt(x)) && (IsDeclaration(x) ==> Headed(top, done))
    requires x.Characters? ==> MarkupAt(s, i + |NodeSpelt(x)|)
    ensures i + |NodeSpelt(x)| <= |s| && Nodes(s, i, top, done) == Nodes(s, i + |NodeSpelt(x)|, top, done + [NodeMeaning(x)])
    decreases x, 1
  {
    hide Matches, Nodes, NodeMeaning;
    match x
    case Nested(_, _, _, _, _) => NestedReads(s, i, top, done, x);
    case Sealed(_, _) => SealedReads(s, i, top, done, x);
    case Leaf(_, _, _) => LeafReads(s, i, top, done, x);
    case Characters(raw) => CharactersReads(s, i, top, done, raw);
  }
}
