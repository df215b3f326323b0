/**
 The XML round trip: parsing the compact print of a document gives the document back.
 */
module XmlRoundTrip {
  import opened ByteStrings
  import opened XmlText
  import opened XmlParser
  import opened XmlPrinter

  // ---- Documents that can be written in XML ----

  predicate IsName(n: Bytes) { n != [] && IsNameStart(n[0]) && forall c <- n :: IsNameChar(c) }

  predicate Clean(v: Bytes) { 0 !in v && CR !in v }

  ghost predicate Contains(v: Bytes, tag: Bytes) { exists k: nat :: Matches(v, k, tag) }

  predicate Distinct(attributes: seq<Attribute>)
  {
    forall i, j :: 0 <= i < j < |attributes| ==> attributes[i].name != attributes[j].name
  }

  predicate PlainText(node: Node) { node.Text? && !node.cdata }

  const DASHES: Bytes := [Ch('-'), Ch('-')]
  const CDATA: Bytes := [Ch('['), Ch('C'), Ch('D'), Ch('A'), Ch('T'), Ch('A'), Ch('[')]

  ghost predicate ValidNode(node: Node)
    decreases node, 1
  {
    match node
    case Element(name, attributes, kids) =>
      && IsName(name) && Distinct(attributes) && (forall a <- attributes :: IsName(a.name) && Clean(a.value))
      && ValidNodes(kids, false, [])
    case Text(v, cdata) => Clean(v) && if cdata then !Contains(v, CDATA_END) else exists c <- v :: !IsSpace(c)
    case Comment(v) => Clean(v) && !Contains(v, COMMENT_END)
    case Declaration(v) => Clean(v) && !Contains(v, XML_END)
    case Unknown(v) => Clean(v) && Ch('>') !in v && !Matches(v, 0, DASHES) && !Matches(v, 0, CDATA)
  }

  /** Valid nodes after the nodes `before`: no two plain texts side by side, and declarations
      only where they may stand. */
  ghost predicate ValidNodes(kids: seq<Node>, top: bool, before: seq<Node>)
    decreases kids, 0
  {
    kids == [] ||
    (&& ValidNode(kids[0]) && WellLocated(kids[0], top, before)
     && (|kids| > 1 && PlainText(kids[0]) ==> !PlainText(kids[1]))
     && ValidNodes(kids[1..], top, before + [kids[0]]))
  }

  /** At the top: a document is not empty, does not end in text, and what it starts with is
      neither white space nor a byte order mark. */
  ghost predicate ValidDocument(d: Document)
  {
    && d.kids != [] && ValidNodes(d.kids, true, []) && !PlainText(d.kids[|d.kids| - 1])
    && (!d.bom && PlainText(d.kids[0]) ==> var v := d.kids[0].value; !IsSpace(Peek(v, 0)) && !Matches(v, 0, BOM))
  }

  // ---- Finding the end of a value ----

  lemma SliceOf(s: Bytes, i: nat, w: Bytes)
    requires Matches(s, i, w)
    ensures i + |w| <= |s| && s[i..i + |w|] == w
  {
  }

  lemma {:induction false} FindAt(s: Bytes, i: nat, tag: Bytes, e: nat)
    requires i <= e < |s| && s[e] != 0 && Matches(s, e, tag)
    requires forall k :: i <= k < e ==> s[k] != 0 && !Matches(s, k, tag)
    ensures FindTag(s, i, tag) == Some(e)
    decreases e - i
  {
    hide Matches;
    if i < e {
      FindAt(s, i + 1, tag, e);
    }
  }

  /** A tag whose last byte occurs nowhere else in it. */
  predicate EndsUniquely(tag: Bytes)
  {
    tag != [] && 0 !in tag && forall k :: 0 <= k < |tag| - 1 ==> tag[k] != tag[|tag| - 1]
  }

  /** Such a tag cannot start inside a value that does not contain it. */
  lemma NotInside(s: Bytes, i: nat, v: Bytes, tag: Bytes, k: nat)
    requires EndsUniquely(tag) && Matches(s, i, v) && Matches(s, i + |v|, tag) && !Contains(v, tag)
    requires i <= k < i + |v|
    ensures !Matches(s, k, tag)
  {
    var at := k - i;
    if at + |tag| > |v| {
      var last := |tag| - 1;
      var off := at + last - |v|;
      if k + last < |s| {
        assert s[i + |v| + off] == tag[off];
        assert s[k + last] != tag[last];
      }
    } else {
      assert !Matches(v, at, tag);
      var j :| 0 <= j < |tag| && v[at + j] != tag[j];
      assert s[i + (at + j)] == v[at + j];
      Mismatch(s, k, tag, j);
    }
  }

  lemma FindEnd(s: Bytes, i: nat, v: Bytes, tag: Bytes)
    requires EndsUniquely(tag) && Matches(s, i, v + tag) && 0 !in v && !Contains(v, tag)
    ensures FindTag(s, i, tag) == Some(i + |v|)
  {
    hide Matches, Contains;
    MatchesSplit(s, i, v, tag);
    SliceOf(s, i, v);
    First(s, i + |v|, tag);
    forall k | i <= k < i + |v|
      ensures s[k] != 0 && !Matches(s, k, tag)
    {
      NotInside(s, i, v, tag, k);
      assert s[k] == s[i..i + |v|][k - i];
    }
    FindAt(s, i, tag, i + |v|);
  }

  lemma UntilRead(s: Bytes, i: nat, v: Bytes, tag: Bytes)
    requires EndsUniquely(tag) && Matches(s, i, v + tag) && Clean(v) && !Contains(v, tag)
    ensures ParseUntil(s, i, tag) == Good(v, i + |v| + |tag|)
  {
    hide Contains, Matches, InPlace;
    FindEnd(s, i, v, tag);
    MatchesSplit(s, i, v, tag);
    SliceOf(s, i, v);
    VerbatimDecodes(v, 0, []);
    assert [] + v[0..] == v;
  }

  lemma NoByteInside(v: Bytes, c: Byte)
    requires c !in v
    ensures !Contains(v, [c])
  {
    forall k: nat
      ensures !Matches(v, k, [c])
    {
      if Matches(v, k, [c]) {
        First(v, k, [c]);
      }
    }
  }

  // ---- Leaves ----

  lemma NoSpaceAt(s: Bytes, i: nat)
    requires i <= |s| && !IsSpace(Peek(s, i))
    ensures SkipSpace(s, i) == i
  {
  }

  /** What Identify makes of the five headers. */
  lemma IdentifyRead(s: Bytes, i: nat, header: Bytes, kind: Kind)
    requires Matches(s, i, header)
    requires || (kind == XmlKind && header == XML_HEADER)
             || (kind == CommentKind && header == COMMENT_HEADER)
             || (kind == CDataKind && header == CDATA_HEADER)
             || (kind == DtdKind && header == DTD_HEADER
                 && !Matches(s, i, COMMENT_HEADER) && !Matches(s, i, CDATA_HEADER))
    ensures Identify(s, i) == (kind, i + |header|)
  {
    First(s, i, header);
    assert s[i + 1] == header[1];
    assert |header| > 2 ==> s[i + 2] == header[2];
    NoSpaceAt(s, i);
    if kind != XmlKind {
      Mismatch(s, i, XML_HEADER, 1);
    }
    if kind == CDataKind {
      Mismatch(s, i, COMMENT_HEADER, 2);
    }
  }

  /** No header longer than "<!" is made by a value that does not start like it. */
  lemma HeaderNotMade(s: Bytes, i: nat, v: Bytes, rest: Bytes)
    requires Matches(s, i, DTD_HEADER + v + DTD_END) && Ch('>') !in v && Ch('>') !in rest && !Matches(v, 0, rest)
    ensures !Matches(s, i, DTD_HEADER + rest)
  {
    MatchesSplit(s, i, DTD_HEADER + v, DTD_END);
    MatchesSplit(s, i, DTD_HEADER, v);
    MatchesSplit(s, i, DTD_HEADER, rest);
    if |rest| > |v| {
      First(s, i + 2 + |v|, DTD_END);
      assert rest[|v|] in rest;
      Mismatch(s, i + 2, rest, |v|);
    } else {
      var k :| 0 <= k < |rest| && v[0 + k] != rest[k];
      assert s[i + 2 + k] == v[k];
    }
  }

  lemma LeafRead(s: Bytes, i: nat, node: Node)
    requires ValidNode(node) && !node.Element? && !PlainText(node) && Matches(s, i, Markup(node))
    ensures var (kind, at) := Identify(s, i);
            && kind != NoNode && kind != ElementKind
            && ParseLeaf(s, kind, at) == Good(node, i + |Markup(node)|)
  {
    hide Matches, Contains, Identify, ParseUntil, Clean;
    match node
    case Text(v, _) =>
      VerbatimRead(s, i, CDATA_HEADER, v, CDATA_END, CDataKind);
    case Comment(v) =>
      VerbatimRead(s, i, COMMENT_HEADER, v, COMMENT_END, CommentKind);
    case Declaration(v) =>
      VerbatimRead(s, i, XML_HEADER, v, XML_END, XmlKind);
    case Unknown(v) =>
      HeaderNotMade(s, i, v, DASHES);
      HeaderNotMade(s, i, v, CDATA);
      assert DTD_HEADER + DASHES == COMMENT_HEADER && DTD_HEADER + CDATA == CDATA_HEADER;
      NoByteInside(v, Ch('>'));
      VerbatimRead(s, i, DTD_HEADER, v, DTD_END, DtdKind);
  }

  lemma VerbatimRead(s: Bytes, i: nat, header: Bytes, v: Bytes, end: Bytes, kind: Kind)
    requires Matches(s, i, header + v + end) && Clean(v) && !Contains(v, end) && EndsUniquely(end)
    requires || (kind == XmlKind && header == XML_HEADER)
             || (kind == CommentKind && header == COMMENT_HEADER)
             || (kind == CDataKind && header == CDATA_HEADER)
             || (kind == DtdKind && header == DTD_HEADER
                 && !Matches(s, i, COMMENT_HEADER) && !Matches(s, i, CDATA_HEADER))
    ensures Identify(s, i) == (kind, i + |header|)
    ensures ParseUntil(s, i + |header|, end) == Good(v, i + |header + v + end|)
  {
    hide Matches, Contains, Identify, ParseUntil;
    Associates(header, v, end);
    MatchesSplit(s, i, header, v + end);
    IdentifyRead(s, i, header, kind);
    UntilRead(s, i + |header|, v, end);
  }

  // ---- Character data ----

  lemma {:induction false} EscapedBytes(t: Bytes, restricted: bool)
    ensures Ch('<') !in EscapedText(t, restricted)
    ensures !restricted ==> Ch('"') !in EscapedText(t, restricted)
    ensures 0 !in t ==> 0 !in EscapedText(t, restricted)
    ensures (exists c <- t :: !IsSpace(c)) ==> exists c <- EscapedText(t, restricted) :: !IsSpace(c)
    decreases |t|
  {
    if t != [] {
      EscapedBytes(t[1..], restricted);
      var piece, rest := EscapedByte(t[0], restricted), EscapedText(t[1..], restricted);
      assert Ch('<') !in piece && (!restricted ==> Ch('"') !in piece) && (t[0] != 0 ==> 0 !in piece);
      if c :| c in t && !IsSpace(c) {
        if c == t[0] {
          assert piece[0] in piece + rest && !IsSpace(piece[0]);
        } else {
          assert c in t[1..];
          var d :| d in rest && !IsSpace(d);
          assert d in piece + rest;
        }
      }
    }
  }

  /** A stretch of text that is not all white space is identified as text. */
  lemma IdentifyText(s: Bytes, i: nat, e: Bytes)
    requires Matches(s, i, e) && Ch('<') !in e && 0 !in e && exists c <- e :: !IsSpace(c)
    ensures Identify(s, i) == (TextKind, i)
  {
    var c :| c in e && !IsSpace(c);
    var k :| 0 <= k < |e| && e[k] == c;
    var j := SkipSpace(s, i);
    assert s[i + k] == c;
    assert j <= i + k;
    assert s[i + (j - i)] == e[j - i] && e[j - i] in e;
    forall header | header in [XML_HEADER, COMMENT_HEADER, CDATA_HEADER, DTD_HEADER]
      ensures !Matches(s, j, header)
    {
      Mismatch(s, j, header, 0);
    }
  }

  lemma CharactersRead(s: Bytes, i: nat, v: Bytes)
    requires Clean(v) && (exists c <- v :: !IsSpace(c)) && Matches(s, i, EscapedText(v, true))
    requires var e := i + |EscapedText(v, true)|; Peek(s, e) == Ch('<') && Peek(s, e + 1) != 0
    ensures Identify(s, i) == (TextKind, i)
    ensures ParseCharacters(s, i) == Good(v, i + |EscapedText(v, true)|)
  {
    hide Matches, EscapedText, Identify, Decoded;
    var text := EscapedText(v, true);
    EscapedBytes(v, true);
    IdentifyText(s, i, text);
    NoByteInside(text, Ch('<'));
    assert Matches(s, i + |text|, [Ch('<')]) by { ByteMatches(s, i + |text|); }
    MatchesSplit(s, i, text, [Ch('<')]);
    FindEnd(s, i, text, [Ch('<')]);
    SliceOf(s, i, text);
    PrintedStringRead(v, true);
  }

  lemma ByteMatches(s: Bytes, i: nat)
    requires i < |s|
    ensures Matches(s, i, [s[i]])
  {
  }

  // ---- Names and attributes ----

  lemma NameRead(s: Bytes, i: nat, n: Bytes)
    requires IsName(n) && Matches(s, i, n) && !IsNameChar(Peek(s, i + |n|))
    ensures i + |n| <= |s| && ParseName(s, i) == Some(i + |n|) && s[i..i + |n|] == n
    ensures IsNameStart(Peek(s, i)) && SkipSpace(s, i) == i
  {
    hide Matches;
    First(s, i, n);
    SliceOf(s, i, n);
    forall k | i <= k < i + |n|
      ensures IsNameChar(s[k])
    {
      assert s[k] == s[i..i + |n|][k - i];
    }
    NameEndAt(s, i + 1, i + |n|);
    NoSpaceAt(s, i);
  }

  lemma {:induction false} NameEndAt(s: Bytes, i: nat, j: nat)
    requires i <= j <= |s| && !IsNameChar(Peek(s, j)) && forall k :: i <= k < j ==> IsNameChar(s[k])
    ensures NameEnd(s, i) == j
    decreases j - i
  {
    if i < j {
      NameEndAt(s, i + 1, j);
    }
  }

  const QUOTE: Bytes := [Ch('"')]
  const EQUALS: Bytes := [Ch('='), Ch('"')]

  lemma AttributeRead(s: Bytes, i: nat, a: Attribute)
    requires IsName(a.name) && Clean(a.value)
    requires Matches(s, i, a.name + (EQUALS + (EscapedText(a.value, false) + QUOTE)))
    ensures ParseAttribute(s, i) == Good(a, i + |AttributeText(a)| - 1)
    ensures IsNameStart(Peek(s, i))
  {
    hide Matches, EscapedText, Decoded, IsName, SkipSpace, ParseName, FindTag;
    var text := EscapedText(a.value, false);
    var end := i + |a.name|;
    MatchesSplit(s, i, a.name, EQUALS + (text + QUOTE));
    MatchesSplit(s, end, EQUALS, text + QUOTE);
    MatchesSplit(s, end + 2, text, QUOTE);
    assert s[end] == Ch('=') && s[end + 1] == Ch('"') by { SliceOf(s, end, EQUALS); assert s[end..end + 2][1] == s[end + 1]; }
    NameRead(s, i, a.name);
    NoSpaceAt(s, end);
    NoSpaceAt(s, end + 1);
    EscapedBytes(a.value, false);
    NoByteInside(text, Ch('"'));
    FindEnd(s, end + 2, text, QUOTE);
    SliceOf(s, end + 2, text);
    PrintedStringRead(a.value, false);
  }

  function TagEnd(sealed: bool): Bytes { if sealed then SEALED else [Ch('>')] }

  lemma {:induction false} AttributesRead(s: Bytes, i: nat, done: seq<Attribute>, attributes: seq<Attribute>, sealed: bool)
    requires Matches(s, i, AttributesText(attributes) + TagEnd(sealed))
    requires Distinct(done + attributes) && forall a <- attributes :: IsName(a.name) && Clean(a.value)
    ensures ParseAttributes(s, i, done)
            == Good(Tag(done + attributes, sealed), i + |AttributesText(attributes)| + |TagEnd(sealed)|)
    decreases |attributes|
  {
    hide Matches, ParseAttribute, AttributeText, IsName, Clean, SkipSpace;
    if attributes == [] {
      assert [] + TagEnd(sealed) == TagEnd(sealed);
      TagEndRead(s, i, done, sealed);
      assert done + attributes == done;
    } else {
      var a, rest := attributes[0], AttributesText(attributes[1..]) + TagEnd(sealed);
      Associates(AttributeText(a), AttributesText(attributes[1..]), TagEnd(sealed));
      MatchesSplit(s, i, AttributeText(a), rest);
      OneAttribute(s, i, done, a);
      assert (done + attributes)[|done|] == a;
      assert done + attributes == done + [a] + attributes[1..];
      forall k | 0 <= k < |done|
        ensures done[k].name != a.name
      {
        assert (done + attributes)[k] == done[k];
      }
      AttributesRead(s, i + |AttributeText(a)|, done + [a], attributes[1..], sealed);
    }
  }

  lemma OneAttribute(s: Bytes, i: nat, done: seq<Attribute>, a: Attribute)
    requires IsName(a.name) && Clean(a.value) && Matches(s, i, AttributeText(a))
    ensures i + |AttributeText(a)| <= |s|
    ensures ParseAttributes(s, i, done)
            == if HasName(done, a.name) then Bad else ParseAttributes(s, i + |AttributeText(a)|, done + [a])
  {
    hide Matches, ParseAttribute, IsName, Clean, EscapedText;
    var tail := a.name + (EQUALS + (EscapedText(a.value, false) + QUOTE));
    assert AttributeText(a) == [Ch(' ')] + tail;
    MatchesSplit(s, i, [Ch(' ')], tail);
    First(s, i, [Ch(' ')]);
    SliceOf(s, i, AttributeText(a));
    AttributeRead(s, i + 1, a);
    NoSpaceAt(s, i + 1);
    assert SkipSpace(s, i) == i + 1;
  }

  lemma TagEndRead(s: Bytes, i: nat, done: seq<Attribute>, sealed: bool)
    requires Matches(s, i, TagEnd(sealed))
    ensures ParseAttributes(s, i, done) == Good(Tag(done, sealed), i + |TagEnd(sealed)|)
  {
    hide ParseAttribute;
    First(s, i, TagEnd(sealed));
    assert sealed ==> s[i + 1] == SEALED[1];
    NoSpaceAt(s, i);
  }

  // ---- Elements and lists of nodes ----

  lemma IdentifyElement(s: Bytes, i: nat)
    requires i + 1 < |s| && s[i] == Ch('<') && s[i + 1] != Ch('?') && s[i + 1] != Ch('!')
    ensures Identify(s, i) == (ElementKind, i + 1)
  {
    NoSpaceAt(s, i);
    forall header | header in [XML_HEADER, COMMENT_HEADER, CDATA_HEADER, DTD_HEADER]
      ensures !Matches(s, i, header)
    {
      Mismatch(s, i, header, 1);
    }
  }

  lemma AfterName(attributes: seq<Attribute>, sealed: bool)
    ensures var text := AttributesText(attributes) + TagEnd(sealed); text != [] && !IsNameChar(text[0])
  {
    if attributes != [] {
      assert AttributeText(attributes[0])[0] == Ch(' ');
    }
  }

  lemma StartTagRead(s: Bytes, i: nat, name: Bytes, attributes: seq<Attribute>, sealed: bool)
    requires IsName(name) && Distinct(attributes) && forall a <- attributes :: IsName(a.name) && Clean(a.value)
    requires Matches(s, i, [Ch('<')] + name + AttributesText(attributes) + TagEnd(sealed))
    ensures i < |s| && Identify(s, i) == (ElementKind, i + 1)
    ensures ParseHead(s, i + 1) == Good(Head(name, attributes, if sealed then Closed else Open),
                                        i + 1 + |name| + |AttributesText(attributes)| + |TagEnd(sealed)|)
  {
    hide Matches, Identify, ParseAttributes, IsName, Clean, SkipSpace, Distinct, TagEnd, AttributesText, ParseName;
    hide IsNameChar, IsSpace;
    var tail := AttributesText(attributes) + TagEnd(sealed);
    assert [Ch('<')] + name + AttributesText(attributes) + TagEnd(sealed) == [Ch('<')] + (name + tail);
    MatchesSplit(s, i, [Ch('<')], name + tail);
    MatchesSplit(s, i + 1, name, tail);
    First(s, i, [Ch('<')]);
    AfterName(attributes, sealed);
    First(s, i + 1 + |name|, tail);
    NameRead(s, i + 1, name);
    IdentifyElement(s, i);
    AttributesRead(s, i + 1 + |name|, [], attributes, sealed) by { assert [] + attributes == attributes; }
    assert [] + attributes == attributes;
  }

  lemma EndTagRead(s: Bytes, i: nat, name: Bytes)
    requires IsName(name) && Matches(s, i, EndTag(name))
    ensures i < |s| && Identify(s, i) == (ElementKind, i + 1)
    ensures ParseHead(s, i + 1) == Good(Head(name, [], CloseTag), i + |EndTag(name)|)
  {
    hide Matches, Identify, IsName, SkipSpace;
    Associates(END_TAG, name, [Ch('>')]);
    MatchesSplit(s, i, END_TAG, name + [Ch('>')]);
    MatchesSplit(s, i + 2, name, [Ch('>')]);
    SliceOf(s, i, END_TAG);
    assert s[i] == s[i..i + 2][0] && s[i + 1] == s[i..i + 2][1];
    First(s, i + 2 + |name|, [Ch('>')]);
    NameRead(s, i + 2, name);
    IdentifyElement(s, i);
    NoSpaceAt(s, i + 1);
    TagEndRead(s, i + 2 + |name|, [], false);
  }

  /** Text is only complete when markup follows it. */
  predicate Followed(s: Bytes, i: nat, node: Node)
  {
    PlainText(node) ==> Peek(s, i) == Ch('<') && Peek(s, i + 1) != 0
  }

  /** Reading one printed node adds that node. */
  lemma {:induction false} NodeRead(s: Bytes, i: nat, top: bool, done: seq<Node>, node: Node)
    requires ValidNode(node) && WellLocated(node, top, done) && Matches(s, i, Markup(node))
    requires Followed(s, i + |Markup(node)|, node)
    ensures i + |Markup(node)| <= |s|
    ensures Nodes(s, i, top, done) == Nodes(s, i + |Markup(node)|, top, done + [node])
    decreases node, 1
  {
    hide Matches, Identify, ParseHead, ParseCharacters, ParseUntil, EscapedText;
    SliceOf(s, i, Markup(node));
    match node
    case Element(name, attributes, kids) => ElementRead(s, i, top, done, node);
    case Text(v, cdata) =>
      if cdata {
        LeafRead(s, i, node);
      } else {
        CharactersRead(s, i, v);
      }
    case _ => LeafRead(s, i, node);
  }

  lemma {:induction false} ElementRead(s: Bytes, i: nat, top: bool, done: seq<Node>, node: Node)
    requires node.Element? && ValidNode(node) && Matches(s, i, Markup(node))
    ensures i + |Markup(node)| <= |s|
    ensures Nodes(s, i, top, done) == Nodes(s, i + |Markup(node)|, top, done + [node])
    decreases node, 0
  {
    hide Matches, Identify, ParseHead, IsName, Clean, Distinct, AttributesText, MarkupAll, Markup, EndTag, TagEnd, ValidNodes;
    hide Nodes;
    var Element(name, attributes, kids) := node;
    var sealed := kids == [];
    var open := StartTag(node) + TagEnd(sealed);
    var rest := if sealed then [] else MarkupAll(kids) + EndTag(name);
    ElementMarkup(node);
    SliceOf(s, i, Markup(node));
    MatchesSplit(s, i, open, rest);
    StartTagRead(s, i, name, attributes, sealed);
    var end := i + |Markup(node)|;
    if !sealed {
      InnerRead(s, i + |open|, name, kids);
    }
    HeadStep(s, i, top, done, node, i + |open|, end);
  }

  /** An element from its head, and its children if it is not sealed. */
  lemma HeadStep(s: Bytes, i: nat, top: bool, done: seq<Node>, node: Node, inner: nat, end: nat)
    requires node.Element? && i < inner <= end <= |s| && Identify(s, i) == (ElementKind, i + 1)
    requires ParseHead(s, i + 1) == Good(Head(node.name, node.attributes, if node.kids == [] then Closed else Open), inner)
    requires if node.kids == [] then inner == end else Nodes(s, inner, false, []) == AtTag(node.kids, node.name, end)
    ensures Nodes(s, i, top, done) == Nodes(s, end, top, done + [node])
  {
    hide Identify, ParseHead;
  }

  lemma ElementMarkup(node: Node)
    requires node.Element?
    ensures var sealed := node.kids == [];
            Markup(node) == StartTag(node) + TagEnd(sealed) + if sealed then [] else MarkupAll(node.kids) + EndTag(node.name)
  {
    hide StartTag, EndTag;
    var open := StartTag(node);
    if node.kids == [] {
      assert open + SEALED == open + SEALED + [];
    } else {
      var inner, end := MarkupAll(node.kids), EndTag(node.name);
      assert open + ([Ch('>')] + inner + end) == open + [Ch('>')] + (inner + end);
    }
  }

  /** The children of an element, and its end tag, read by the last of them. */
  lemma {:induction false} InnerRead(s: Bytes, i: nat, name: Bytes, kids: seq<Node>)
    requires IsName(name) && ValidNodes(kids, false, []) && Matches(s, i, MarkupAll(kids) + EndTag(name))
    ensures i <= |s|
    ensures Nodes(s, i, false, []) == AtTag(kids, name, i + |MarkupAll(kids) + EndTag(name)|)
    decreases kids, 1
  {
    hide Matches, Identify, ParseHead, IsName, MarkupAll, ValidNodes;
    var end := i + |MarkupAll(kids)|;
    MatchesSplit(s, i, MarkupAll(kids), EndTag(name));
    SliceOf(s, i, MarkupAll(kids));
    SliceOf(s, end, EndTag(name));
    assert s[end] == s[end..end + |EndTag(name)|][0] && s[end + 1] == s[end..end + |EndTag(name)|][1];
    NodesRead(s, i, false, [], kids);
    EndTagRead(s, end, name);
    assert [] + kids == kids;
  }

  /** Reading a printed list of nodes adds these nodes. */
  lemma {:induction false} NodesRead(s: Bytes, i: nat, top: bool, done: seq<Node>, kids: seq<Node>)
    requires ValidNodes(kids, top, done) && Matches(s, i, MarkupAll(kids))
    requires kids != [] ==> Followed(s, i + |MarkupAll(kids)|, kids[|kids| - 1])
    ensures i + |MarkupAll(kids)| <= |s|
    ensures Nodes(s, i, top, done) == Nodes(s, i + |MarkupAll(kids)|, top, done + kids)
    decreases kids, 0
  {
    hide Matches, Nodes, Markup, ValidNode, WellLocated;
    SliceOf(s, i, MarkupAll(kids));
    if kids == [] {
      assert done + kids == done;
    } else {
      var node, rest := kids[0], MarkupAll(kids[1..]);
      var next := i + |Markup(node)|;
      MatchesSplit(s, i, Markup(node), rest);
      if |kids| == 1 {
        assert rest == [];
      } else if PlainText(node) {
        StartsWithMarkup(s, next, kids[1..], top, done + [node]);
      }
      NodeRead(s, i, top, done, node);
      NodesRead(s, next, top, done + [node], kids[1..]);
      assert done + [node] + kids[1..] == done + kids;
    }
  }

  lemma StartsWithMarkup(s: Bytes, i: nat, kids: seq<Node>, top: bool, done: seq<Node>)
    requires kids != [] && !PlainText(kids[0]) && ValidNodes(kids, top, done) && Matches(s, i, MarkupAll(kids))
    ensures Peek(s, i) == Ch('<') && Peek(s, i + 1) != 0
  {
    hide Matches;
    var node := kids[0];
    MatchesSplit(s, i, Markup(node), MarkupAll(kids[1..]));
    SliceOf(s, i, Markup(node));
    assert |Markup(node)| > 1 && Markup(node)[1] != 0;
    assert s[i] == s[i..i + |Markup(node)|][0] && s[i + 1] == s[i..i + |Markup(node)|][1];
  }

  lemma MatchesTail(s: Bytes, w: Bytes)
    requires w != []
    ensures Matches(s, 0, w) <==> s != [] && s[0] == w[0] && Matches(s[1..], 0, w[1..])
  {
    if Matches(s, 0, w) {
      assert s[0 + 0] == w[0];
      forall k | 0 <= k < |w[1..]|
        ensures s[1..][0 + k] == w[1..][k]
      {
        assert s[0 + (k + 1)] == w[k + 1];
      }
    }
    if s != [] && s[0] == w[0] && Matches(s[1..], 0, w[1..]) {
      forall k | 0 <= k < |w|
        ensures s[0 + k] == w[k]
      {
        if k > 0 {
          assert s[1..][0 + (k - 1)] == w[1..][k - 1];
        }
      }
    }
  }

  /** Escaping does not make up a run of high bytes. */
  lemma {:induction false} HighBytes(v: Bytes, rest: Bytes, w: Bytes)
    requires rest != [] && rest[0] < 128 && (forall c <- w :: c >= 128) && Matches(EscapedText(v, true) + rest, 0, w)
    ensures Matches(v, 0, w)
    decreases |w|
  {
    if w != [] {
      HighByteFirst(v, rest, w);
      HighBytes(v[1..], rest, w[1..]);
      MatchesTail(v, w);
    }
  }

  lemma HighByteFirst(v: Bytes, rest: Bytes, w: Bytes)
    requires w != [] && rest != [] && rest[0] < 128
    requires (forall c <- w :: c >= 128) && Matches(EscapedText(v, true) + rest, 0, w)
    ensures v != [] && v[0] == w[0] && Matches(EscapedText(v[1..], true) + rest, 0, w[1..])
    ensures forall c <- w[1..] :: c >= 128
  {
    hide Matches, EscapedText;
    var s := EscapedText(v, true) + rest;
    MatchesTail(s, w);
    assert w[0] in w && forall c <- w[1..] :: c in w;
    EscapedNothing(rest);
    EscapedFirst(v, true);
    assert s[1..] == EscapedText(v[1..], true) + rest;
  }

  lemma EscapedNothing(rest: Bytes)
    ensures EscapedText([], true) + rest == rest
  {
  }

  /** The byte order mark is read back, and nothing else is skipped at the start. */
  lemma DocumentStart(d: Document, tail: Bytes)
    requires ValidDocument(d)
    ensures var s := Printed(d) + tail;
            && SkipSpace(s, 0) == 0 && (Matches(s, 0, BOM) <==> d.bom)
            && Peek(s, if d.bom then 3 else 0) != 0
  {
    hide Matches, Markup, MarkupAll, ValidNode;
    var s, all := Printed(d) + tail, MarkupAll(d.kids) + tail;
    FirstByte(d, tail);
    if d.bom {
      assert s == BOM + all;
      assert s[3] == all[0];
      Whole(s);
      MatchesSplit(s, 0, BOM, all);
    } else {
      assert s == all;
    }
    NoSpaceAt(s, 0);
  }

  lemma FirstByte(d: Document, tail: Bytes)
    requires ValidDocument(d)
    ensures var all := MarkupAll(d.kids) + tail;
            && all != [] && all[0] != 0
            && (!d.bom ==> !IsSpace(all[0]) && !Matches(all, 0, BOM))
  {
    hide Matches;
    var node, all := d.kids[0], MarkupAll(d.kids) + tail;
    if !PlainText(node) {
      assert all[0] == Markup(node)[0] == Ch('<');
      Mismatch(all, 0, BOM, 0);
    } else {
      var v, rest := node.value, MarkupAll(d.kids[1..]) + tail;
      assert |d.kids| > 1 && rest[0] == Markup(d.kids[1])[0] == Ch('<');
      assert ValidNode(node);
      assert v[0] in v;
      EscapedFirst(v, true);
      Associates(EscapedText(v, true), MarkupAll(d.kids[1..]), tail);
      assert all == EscapedText(v, true) + rest && all[0] == EscapedText(v, true)[0];
      if !d.bom && Matches(all, 0, BOM) {
        HighBytes(v, rest, BOM);
        assert false;
      }
    }
  }

  /** Whatever follows the print of a document, its nodes are read first. */
  lemma PrintedRead(d: Document, tail: Bytes)
    requires ValidDocument(d)
    ensures var s := Printed(d) + tail;
            Parse(s) == match Nodes(s, |Printed(d)|, true, d.kids)
                        case Failed => None
                        case AtEnd(kids) => Some(Document(d.bom, kids))
                        case AtTag(kids, _, _) => Some(Document(d.bom, kids))
  {
    hide Nodes, MarkupAll, ValidNode, ValidNodes, Matches, SkipSpace;
    var s := Printed(d) + tail;
    var start := if d.bom then 3 else 0;
    Whole(s);
    MatchesSplit(s, 0, Printed(d), tail);
    MatchesSplit(s, 0, if d.bom then BOM else [], MarkupAll(d.kids));
    DocumentStart(d, tail);
    NodesRead(s, start, true, [], d.kids);
    assert [] + d.kids == d.kids;
  }

  /** For every valid document: the compact print parses without an error, to the document. */
  lemma RoundTrip(d: Document)
    requires ValidDocument(d)
    ensures Parse(Printed(d)) == Some(d)
  {
    hide Nodes, Printed, ValidDocument;
    PrintedRead(d, []);
    assert Printed(d) + [] == Printed(d);
    NodesAtEnd(Printed(d), d.kids);
  }

  /** Nothing that was read is taken back. */
  lemma {:induction false} KidsKept(s: Bytes, i: nat, top: bool, kids: seq<Node>)
    requires i <= |s| && !Nodes(s, i, top, kids).Failed?
    ensures kids <= Nodes(s, i, top, kids).kids
    decreases |s| - i
  {
    hide Identify, ParseHead, ParseLeaf, WellLocated;
    var (kind, at) := Identify(s, i);
    if kind == ElementKind {
      var head := ParseHead(s, at);
      if head.Good? && head.value.closing != CloseTag {
        var inner :=
          if head.value.closing == Closed then AtTag([], head.value.name, head.next) else Nodes(s, head.next, false, []);
        KidsKept(s, inner.next, top, kids + [Element(head.value.name, head.value.attributes, inner.kids)]);
      }
    } else if kind != NoNode {
      var leaf := ParseLeaf(s, kind, at);
      KidsKept(s, leaf.next, top, kids + [leaf.value]);
    }
  }

  /** The parser stops at `i`: nothing but white space follows, or a complete closing tag. */
  predicate Stops(s: Bytes, i: nat)
    requires i <= |s|
  {
    var (kind, at) := Identify(s, i);
    || kind == NoNode
    || (kind == ElementKind && ParseHead(s, at).Good? && ParseHead(s, at).value.closing == CloseTag)
  }

  /** Reading on adds no node exactly if the parser stops at once. */
  lemma NothingAdded(s: Bytes, i: nat, top: bool, kids: seq<Node>)
    requires i <= |s|
    ensures var r := Nodes(s, i, top, kids); !r.Failed? && r.kids == kids <==> Stops(s, i)
  {
    hide Identify, ParseHead, ParseLeaf, WellLocated;
    var r := Nodes(s, i, top, kids);
    var (kind, at) := Identify(s, i);
    if !Stops(s, i) && !r.Failed? {
      if kind == ElementKind {
        var head := ParseHead(s, at);
        var inner :=
          if head.value.closing == Closed then AtTag([], head.value.name, head.next) else Nodes(s, head.next, false, []);
        KidsKept(s, inner.next, top, kids + [Element(head.value.name, head.value.attributes, inner.kids)]);
      } else {
        var leaf := ParseLeaf(s, kind, at);
        KidsKept(s, leaf.next, top, kids + [leaf.value]);
      }
    }
  }

  /** What may follow a document without changing it, for every tail: white space, or a tag
      that closes nothing and then anything at all. */
  lemma TailIgnoredIff(d: Document, tail: Bytes)
    requires ValidDocument(d)
    ensures Parse(Printed(d) + tail) == Some(d) <==> Stops(Printed(d) + tail, |Printed(d)|)
  {
    hide Nodes, Printed, ValidDocument, Stops;
    PrintedRead(d, tail);
    NothingAdded(Printed(d) + tail, |Printed(d)|, true, d.kids);
  }

  /** In particular a closing tag that closes nothing ends the document without an error, and
      whatever comes after it is ignored. */
  lemma StrayEndTag(d: Document, name: Bytes, junk: Bytes)
    requires ValidDocument(d) && IsName(name)
    ensures Parse(Printed(d) + (EndTag(name) + junk)) == Some(d)
  {
    hide Printed, ValidDocument, Identify, ParseHead, EndTag, IsName, Matches;
    var tail := EndTag(name) + junk;
    var s := Printed(d) + tail;
    Whole(s);
    MatchesSplit(s, 0, Printed(d), tail);
    MatchesSplit(s, |Printed(d)|, EndTag(name), junk);
    EndTagRead(s, |Printed(d)|, name);
    TailIgnoredIff(d, tail);
  }

  lemma NodesAtEnd(s: Bytes, kids: seq<Node>)
    ensures Nodes(s, |s|, true, kids) == AtEnd(kids)
  {
    NothingLeft(s, |s|);
  }
}
