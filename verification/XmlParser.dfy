/**
 The XML parser.  A list of nodes ends when a child turns out to be the closing tag of its
 parent, so the closing tag is read one level too deep and handed up.
 */
module XmlParser {
  import opened ByteStrings
  import opened XmlText

  datatype Attribute = Attribute(name: Bytes, value: Bytes)

  datatype Node =
    | Element(name: Bytes, attributes: seq<Attribute>, kids: seq<Node>)
    | Text(value: Bytes, cdata: bool)
    | Comment(value: Bytes)
    | Declaration(value: Bytes)
    | Unknown(value: Bytes)

  datatype Document = Document(bom: bool, kids: seq<Node>)

  // ---- Names, delimiters and attributes ----

  predicate IsNameStart(c: Byte)
  {
    c >= 128 || Ch('a') <= c <= Ch('z') || Ch('A') <= c <= Ch('Z') || c == Ch(':') || c == Ch('_')
  }

  predicate IsNameChar(c: Byte)
  {
    IsNameStart(c) || IsDigit(c) || c == Ch('.') || c == Ch('-')
  }

  function NameEnd(s: Bytes, i: nat): (j: nat)
    requires i <= |s|
    ensures i <= j <= |s| && !IsNameChar(Peek(s, j)) && forall k :: i <= k < j ==> IsNameChar(s[k])
    decreases |s| - i
  {
    if IsNameChar(Peek(s, i)) then NameEnd(s, i + 1) else i
  }

  /** The end of the name at `i`. */
  function ParseName(s: Bytes, i: nat): (r: Option<nat>)
    requires i <= |s|
    ensures r.Some? ==> i < r.value <= |s|
  {
    if IsNameStart(Peek(s, i)) then Some(NameEnd(s, i + 1)) else None
  }

  /** Where `tag` first stands from `i` on, before any terminator. */
  function FindTag(s: Bytes, i: nat, tag: Bytes): (r: Option<nat>)
    requires i <= |s|
    ensures r.Some? ==> i <= r.value < |s| && Matches(s, r.value, tag)
    decreases |s| - i
  {
    if Peek(s, i) == 0 then None
    else if Matches(s, i, tag) then Some(i)
    else FindTag(s, i + 1, tag)
  }

  datatype Read<+T> = Bad | Good(value: T, next: nat)

  function ParseAttribute(s: Bytes, i: nat): (r: Read<Attribute>)
    requires i <= |s|
    ensures r.Good? ==> i < r.next <= |s|
  {
    match ParseName(s, i)
    case None => Bad
    case Some(end) =>
      if Peek(s, end) == 0 then Bad
      else
        var equals := SkipSpace(s, end);
        if Peek(s, equals) != Ch('=') then Bad
        else
          var open := SkipSpace(s, equals + 1);
          var quote := Peek(s, open);
          if quote != Ch('"') && quote != Ch('\'') then Bad
          else
            match FindTag(s, open + 1, [quote])
            case None => Bad
            case Some(close) =>
              Good(Attribute(s[i..end], Decoded(s[open + 1..close], TEXT)), close + 1)
  }

  predicate HasName(attributes: seq<Attribute>, name: Bytes)
  {
    exists a <- attributes :: a.name == name
  }

  datatype Tag = Tag(attributes: seq<Attribute>, sealed: bool)

  /** ParseAttributes: the rest of a tag, up to and with its end. */
  function ParseAttributes(s: Bytes, i: nat, sofar: seq<Attribute>): (r: Read<Tag>)
    requires i <= |s|
    ensures r.Good? ==> i < r.next <= |s|
    decreases |s| - i
  {
    var j := SkipSpace(s, i);
    var c := Peek(s, j);
    if c == 0 then Bad
    else if IsNameStart(c) then
      match ParseAttribute(s, j)
      case Bad => Bad
      case Good(a, next) => if HasName(sofar, a.name) then Bad else ParseAttributes(s, next, sofar + [a])
    else if c == Ch('>') then Good(Tag(sofar, false), j + 1)
    else if c == Ch('/') && Peek(s, j + 1) == Ch('>') then Good(Tag(sofar, true), j + 2)
    else Bad
  }

  // ---- Nodes ----

  const XML_HEADER: Bytes := [Ch('<'), Ch('?')]
  const COMMENT_HEADER: Bytes := [Ch('<'), Ch('!'), Ch('-'), Ch('-')]
  const CDATA_HEADER: Bytes := [Ch('<'), Ch('!'), Ch('['), Ch('C'), Ch('D'), Ch('A'), Ch('T'), Ch('A'), Ch('[')]
  const DTD_HEADER: Bytes := [Ch('<'), Ch('!')]

  const XML_END: Bytes := [Ch('?'), Ch('>')]
  const COMMENT_END: Bytes := [Ch('-'), Ch('-'), Ch('>')]
  const CDATA_END: Bytes := [Ch(']'), Ch(']'), Ch('>')]
  const DTD_END: Bytes := [Ch('>')]

  datatype Closing = Open | Closed | CloseTag

  datatype Head = Head(name: Bytes, attributes: seq<Attribute>, closing: Closing)

  /** The tag of an element, after its `<`.  A closing tag is parsed like any other. */
  function ParseHead(s: Bytes, i: nat): (r: Read<Head>)
    requires i <= |s|
    ensures r.Good? ==> i < r.next <= |s|
  {
    var j := SkipSpace(s, i);
    var slash := Peek(s, j) == Ch('/');
    var at := if slash then j + 1 else j;
    match ParseName(s, at)
    case None => Bad
    case Some(end) =>
      match ParseAttributes(s, end, [])
      case Bad => Bad
      case Good(tag, next) =>
        Good(Head(s[at..end], tag.attributes, if tag.sealed then Closed else if slash then CloseTag else Open), next)
  }

  /** A value that ends with `end`. */
  function ParseUntil(s: Bytes, i: nat, end: Bytes): (r: Read<Bytes>)
    requires i <= |s| && end != []
    ensures r.Good? ==> i < r.next <= |s|
  {
    match FindTag(s, i, end)
    case None => Bad
    case Some(e) => Good(Decoded(s[i..e], VERBATIM), e + |end|)
  }

  /** Character data, from `i` to the next `<`, which must not be the last byte. */
  function ParseCharacters(s: Bytes, i: nat): (r: Read<Bytes>)
    requires i <= |s|
    ensures r.Good? ==> i <= r.next < |s| && s[r.next] == Ch('<')
  {
    match FindTag(s, i, [Ch('<')])
    case None => Bad
    case Some(e) =>
      First(s, e, [Ch('<')]);
      if Peek(s, e + 1) == 0 then Bad else Good(Decoded(s[i..e], TEXT), e)
  }

  datatype Kind = NoNode | XmlKind | CommentKind | CDataKind | DtdKind | ElementKind | TextKind

  /** XMLDocument::Identify: what comes next, and where its own parser starts. */
  function Identify(s: Bytes, i: nat): (r: (Kind, nat))
    requires i <= |s|
    ensures i <= r.1 <= |s|
    ensures r.0 != NoNode && r.0 != TextKind ==> i < r.1
    ensures r.0 == TextKind ==> r.1 == i && Peek(s, i) != Ch('<')
  {
    var j := SkipSpace(s, i);
    if Peek(s, j) == 0 then (NoNode, j)
    else if Matches(s, j, XML_HEADER) then (XmlKind, j + 2)
    else if Matches(s, j, COMMENT_HEADER) then (CommentKind, j + 4)
    else if Matches(s, j, CDATA_HEADER) then (CDataKind, j + 9)
    else if Matches(s, j, DTD_HEADER) then (DtdKind, j + 2)
    else if s[j] == Ch('<') then (ElementKind, j + 1)
    else (TextKind, i)
  }

  /** The nodes that have no children. */
  function ParseLeaf(s: Bytes, kind: Kind, i: nat): (r: Read<Node>)
    requires i <= |s| && (kind == TextKind ==> Peek(s, i) != Ch('<'))
    ensures r.Good? ==> i < r.next <= |s|
  {
    match kind
    case XmlKind => Wrap(ParseUntil(s, i, XML_END), v => Declaration(v))
    case CommentKind => Wrap(ParseUntil(s, i, COMMENT_END), v => Comment(v))
    case CDataKind => Wrap(ParseUntil(s, i, CDATA_END), v => Text(v, true))
    case DtdKind => Wrap(ParseUntil(s, i, DTD_END), v => Unknown(v))
    case TextKind => Wrap(ParseCharacters(s, i), v => Text(v, false))
    case _ => Bad
  }

  function Wrap(r: Read<Bytes>, make: Bytes -> Node): Read<Node>
  {
    if r.Bad? then Bad else Good(make(r.value), r.next)
  }

  /** What a list of nodes came to. */
  datatype Outcome =
    | Failed
    | AtEnd(kids: seq<Node>)                            // the text ended
    | AtTag(kids: seq<Node>, name: Bytes, next: nat)    // a closing tag was read

  /** Declarations come first, and only at the top. */
  predicate WellLocated(node: Node, top: bool, before: seq<Node>)
  {
    node.Declaration? ==> top && forall k <- before :: k.Declaration?
  }

  /** XMLNode::ParseDeep after `kids`; `top` says that the parent is the document. */
  function Nodes(s: Bytes, i: nat, top: bool, kids: seq<Node>): (r: Outcome)
    requires i <= |s|
    ensures r.AtTag? ==> i < r.next <= |s|
    decreases |s| - i
  {
    var (kind, at) := Identify(s, i);
    match kind
    case NoNode => AtEnd(kids)
    case ElementKind =>
      (match ParseHead(s, at)
       case Bad => Failed
       case Good(head, next) =>
         match head.closing
         case CloseTag => AtTag(kids, head.name, next)
         case Closed => Nodes(s, next, top, kids + [Element(head.name, head.attributes, [])])
         case Open =>
           match Nodes(s, next, false, [])
           case Failed => Failed
           case AtEnd(_) => Failed
           case AtTag(inner, name, after) =>
             if name != head.name then Failed
             else Nodes(s, after, top, kids + [Element(head.name, head.attributes, inner)]))
    case _ =>
      match ParseLeaf(s, kind, at)
      case Bad => Failed
      case Good(node, next) => if WellLocated(node, top, kids) then Nodes(s, next, top, kids + [node]) else Failed
  }

  const BOM: Bytes := [0xEF, 0xBB, 0xBF]

  /** XMLDocument::Parse.  A stray closing tag at the top ends the document without an error. */
  function Parse(s: Bytes): Option<Document>
  {
    var i := SkipSpace(s, 0);
    var bom := Matches(s, i, BOM);
    var start := if bom then i + 3 else i;
    if Peek(s, start) == 0 then None
    else
      match Nodes(s, start, true, [])
      case Failed => None
      case AtEnd(kids) => Some(Document(bom, kids))
      case AtTag(kids, _, _) => Some(Document(bom, kids))
  }

  // ---- The loops ----

  /** The loop of StrPair::ParseText. */
  method ScanTag(s: Bytes, i: nat, tag: Bytes) returns (r: Option<nat>)
    requires i <= |s|
    ensures r == FindTag(s, i, tag)
  {
    var p := i;
    while Peek(s, p) != 0
      invariant i <= p <= |s| && FindTag(s, p, tag) == FindTag(s, i, tag)
      decreases |s| - p
    {
      if Matches(s, p, tag) {
        return Some(p);
      }
      p := p + 1;
    }
    return None;
  }

  /** The loop of StrPair::ParseName. */
  method ScanName(s: Bytes, i: nat) returns (r: Option<nat>)
    requires i <= |s|
    ensures r == ParseName(s, i)
  {
    if !IsNameStart(Peek(s, i)) {
      return None;
    }
    var p := i + 1;
    while IsNameChar(Peek(s, p))
      invariant i < p <= |s| && NameEnd(s, p) == NameEnd(s, i + 1)
      decreases |s| - p
    {
      p := p + 1;
    }
    return Some(p);
  }

  /** The loop of XMLElement::ParseAttributes. */
  method ReadAttributes(s: Bytes, i: nat) returns (r: Read<Tag>)
    requires i <= |s|
    ensures r == ParseAttributes(s, i, [])
  {
    hide ParseAttribute, SkipSpace;
    var p, attributes := i, [];
    while true
      invariant i <= p <= |s| && ParseAttributes(s, p, attributes) == ParseAttributes(s, i, [])
      decreases |s| - p
    {
      p := SkipTo(s, p, attributes);
      if Peek(s, p) == 0 {
        return Bad;
      } else if IsNameStart(Peek(s, p)) {
        var one := ParseAttribute(s, p);
        if one.Bad? || HasName(attributes, one.value.name) {
          return Bad;
        }
        p, attributes := one.next, attributes + [one.value];
      } else if Peek(s, p) == Ch('>') {
        return Good(Tag(attributes, false), p + 1);
      } else if Peek(s, p) == Ch('/') && Peek(s, p + 1) == Ch('>') {
        return Good(Tag(attributes, true), p + 2);
      } else {
        return Bad;
      }
    }
  }

  method SkipTo(s: Bytes, i: nat, ghost attributes: seq<Attribute>) returns (j: nat)
    requires i <= |s|
    ensures j == SkipSpace(s, i) && SkipSpace(s, j) == j
    ensures ParseAttributes(s, j, attributes) == ParseAttributes(s, i, attributes)
  {
    j := i;
    while IsSpace(Peek(s, j))
      invariant i <= j <= |s| && SkipSpace(s, j) == SkipSpace(s, i)
      decreases |s| - j
    {
      j := j + 1;
    }
  }

  /** The loop of XMLNode::ParseDeep, and its recursion through the elements. */
  method ParseDeep(s: Bytes, i: nat, top: bool) returns (r: Outcome)
    requires i <= |s|
    ensures r == Nodes(s, i, top, [])
    decreases |s| - i
  {
    hide ParseLeaf, ParseHead, Identify, WellLocated;
    var p, kids := i, [];
    while Peek(s, p) != 0
      invariant i <= p <= |s| && Nodes(s, p, top, kids) == Nodes(s, i, top, [])
      decreases |s| - p
    {
      var (kind, at) := Identify(s, p);
      if kind == NoNode {
        return AtEnd(kids);
      } else if kind == ElementKind {
        var head := ParseHead(s, at);
        if head.Bad? {
          return Failed;
        }
        if head.value.closing == CloseTag {
          return AtTag(kids, head.value.name, head.next);
        }
        var inner := [];
        p := head.next;
        if head.value.closing == Open {
          var deep := ParseDeep(s, p, false);
          if !deep.AtTag? || deep.name != head.value.name {
            return Failed;
          }
          inner, p := deep.kids, deep.next;
        }
        kids := kids + [Element(head.value.name, head.value.attributes, inner)];
      } else {
        var leaf := ParseLeaf(s, kind, at);
        if leaf.Bad? || !WellLocated(leaf.value, top, kids) {
          return Failed;
        }
        kids, p := kids + [leaf.value], leaf.next;
      }
    }
    NothingLeft(s, p);
    return AtEnd(kids);
  }

  lemma NothingLeft(s: Bytes, i: nat)
    requires i <= |s| && Peek(s, i) == 0
    ensures Identify(s, i) == (NoNode, i)
  {
  }
}
