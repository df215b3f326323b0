/**
 The language of the XML parser, independently of the parser: for every list of nodes, all the
 ways to write it, with white space, both kinds of quotes, and end tags that bear the names of
 their elements.
 */
module XmlSpelling {
  import opened ByteStrings
  import opened XmlText
  import opened XmlParser

  // ---- White space and names ----

  predicate Blank(c: Byte) { c == 0x20 || 0x09 <= c <= 0x0D }

  predicate AllBlank(w: Bytes) { forall k :: 0 <= k < |w| ==> Blank(w[k]) }

  predicate NameFirst(c: Byte)
  {
    0x41 <= c <= 0x5A || 0x61 <= c <= 0x7A || c == 0x5F || c == 0x3A || c >= 0x80
  }

  predicate NameLater(c: Byte) { NameFirst(c) || 0x30 <= c <= 0x39 || c == 0x2D || c == 0x2E }

  predicate ValidName(n: Bytes) { n != [] && NameFirst(n[0]) && forall k :: 0 <= k < |n| ==> NameLater(n[k]) }

  // ---- Tags ----

  datatype AttributeSpelling = AttributeSpelling(before: Bytes, name: Bytes, equals: Bytes, gap: Bytes, single: bool, raw: Bytes)

  function QuoteOf(single: bool): Byte { if single then 0x27 else 0x22 }

  predicate ValidAttribute(a: AttributeSpelling)
  {
    && AllBlank(a.before) && ValidName(a.name) && AllBlank(a.equals) && AllBlank(a.gap)
    && 0 !in a.raw && QuoteOf(a.single) !in a.raw
  }

  /** White space, the name, `=` with white space around it, and the value in quotes. */
  function AttributeSpelt(a: AttributeSpelling): Bytes
  {
    a.before + (a.name + (a.equals + ([Ch('=')] + (a.gap + ([QuoteOf(a.single)] + (a.raw + [QuoteOf(a.single)]))))))
  }

  function AttributesSpelt(xs: seq<AttributeSpelling>): Bytes
  {
    if xs == [] then [] else AttributeSpelt(xs[0]) + AttributesSpelt(xs[1..])
  }

  function AttributeMeaning(a: AttributeSpelling): Attribute { Attribute(a.name, Decoded(a.raw, TEXT)) }

  function AttributeMeanings(xs: seq<AttributeSpelling>): seq<Attribute>
  {
    if xs == [] then [] else [AttributeMeaning(xs[0])] + AttributeMeanings(xs[1..])
  }

  /** All names differ, from each other and from the names in `before`. */
  predicate NamesDiffer(xs: seq<AttributeSpelling>, before: set<Bytes>)
  {
    xs != [] ==> xs[0].name !in before && NamesDiffer(xs[1..], before + {xs[0].name})
  }

  /** What stands after `<`, up to the `>` or `/>`. */
  datatype TagSpelling = TagSpelling(pre: Bytes, slash: bool, name: Bytes, attributes: seq<AttributeSpelling>, end: Bytes)

  predicate ValidTag(t: TagSpelling)
  {
    && AllBlank(t.pre) && ValidName(t.name) && AllBlank(t.end)
    && (forall a <- t.attributes :: ValidAttribute(a)) && NamesDiffer(t.attributes, {})
    && (t.attributes != [] ==> t.attributes[0].before != [])
  }

  function TagSpelt(t: TagSpelling): Bytes
  {
    t.pre + ((if t.slash then [Ch('/')] else []) + (t.name + (AttributesSpelt(t.attributes) + t.end)))
  }

  // ---- Nodes ----

  datatype LeafKind = DeclarationLeaf | CommentLeaf | CDataLeaf | UnknownLeaf

  function Header(kind: LeafKind): Bytes
  {
    match kind
    case DeclarationLeaf => [Ch('<'), Ch('?')]
    case CommentLeaf => [Ch('<'), Ch('!'), Ch('-'), Ch('-')]
    case CDataLeaf => [Ch('<'), Ch('!'), Ch('['), Ch('C'), Ch('D'), Ch('A'), Ch('T'), Ch('A'), Ch('[')]
    case UnknownLeaf => [Ch('<'), Ch('!')]
  }

  function Footer(kind: LeafKind): Bytes
  {
    match kind
    case DeclarationLeaf => [Ch('?'), Ch('>')]
    case CommentLeaf => [Ch('-'), Ch('-'), Ch('>')]
    case CDataLeaf => [Ch(']'), Ch(']'), Ch('>')]
    case UnknownLeaf => [Ch('>')]
  }

  /** A spelling of a node.  The text of a text node starts with the white space before it. */
  datatype NodeSpelling =
    | Nested(lead: Bytes, tag: TagSpelling, kids: seq<NodeSpelling>, close: Bytes, end: TagSpelling)
    | Sealed(lead: Bytes, tag: TagSpelling)
    | Leaf(lead: Bytes, kind: LeafKind, raw: Bytes)
    | Characters(raw: Bytes)

  ghost predicate Within(raw: Bytes, tag: Bytes) { exists k: nat :: Matches(raw, k, tag) }

  ghost predicate ValidLeaf(kind: LeafKind, raw: Bytes)
  {
    && 0 !in raw && !Within(raw, Footer(kind))
    && (kind == UnknownLeaf ==>
          && !Matches(raw, 0, [Ch('-'), Ch('-')])
          && !Matches(raw, 0, [Ch('['), Ch('C'), Ch('D'), Ch('A'), Ch('T'), Ch('A'), Ch('[')]))
  }

  /** Some character that is not white space, and no markup. */
  predicate ValidCharacters(raw: Bytes) { 0 !in raw && Ch('<') !in raw && !AllBlank(raw) }

  predicate IsDeclaration(x: NodeSpelling) { x.Leaf? && x.kind == DeclarationLeaf }

  ghost predicate ValidSpelling(x: NodeSpelling)
    decreases x, 1
  {
    match x
    case Nested(lead, tag, kids, close, end) =>
      && AllBlank(lead) && ValidTag(tag) && !tag.slash && ValidList(kids, false)
      && AllBlank(close) && ValidTag(end) && end.slash
      && end.name == tag.name
      && (EndsInText(kids) ==> close == [])
    case Sealed(lead, tag) => AllBlank(lead) && ValidTag(tag)
    case Leaf(lead, kind, raw) => AllBlank(lead) && ValidLeaf(kind, raw)
    case Characters(raw) => ValidCharacters(raw)
  }

  predicate EndsInText(xs: seq<NodeSpelling>) { xs != [] && xs[|xs| - 1].Characters? }

  /** After text comes markup at once, and declarations stand at the start if they may. */
  ghost predicate ValidList(xs: seq<NodeSpelling>, declarations: bool)
    decreases xs, 0
  {
    xs != [] ==>
      && ValidSpelling(xs[0])
      && (IsDeclaration(xs[0]) ==> declarations)
      && (xs[0].Characters? && |xs| > 1 ==> !xs[1].Characters? && xs[1].lead == [])
      && ValidList(xs[1..], declarations && IsDeclaration(xs[0]))
  }

  function NodeSpelt(x: NodeSpelling): Bytes
    decreases x, 1
  {
    match x
    case Nested(lead, tag, kids, close, end) =>
      lead + ([Ch('<')] + (TagSpelt(tag) + ([Ch('>')] + (NodesSpelt(kids) + EndSpelt(close, end)))))
    case Sealed(lead, tag) => lead + ([Ch('<')] + (TagSpelt(tag) + [Ch('/'), Ch('>')]))
    case Leaf(lead, kind, raw) => lead + (Header(kind) + (raw + Footer(kind)))
    case Characters(raw) => raw
  }

  /** An end tag; it is written like any other tag, and its attributes mean nothing. */
  function EndSpelt(lead: Bytes, tag: TagSpelling): Bytes { lead + ([Ch('<')] + (TagSpelt(tag) + [Ch('>')])) }

  function NodesSpelt(xs: seq<NodeSpelling>): Bytes
    decreases xs, 0
  {
    if xs == [] then [] else NodeSpelt(xs[0]) + NodesSpelt(xs[1..])
  }

  function NodeMeaning(x: NodeSpelling): Node
    decreases x, 1
  {
    match x
    case Nested(_, tag, kids, _, _) => Element(tag.name, AttributeMeanings(tag.attributes), NodeMeanings(kids))
    case Sealed(_, tag) => Element(tag.name, AttributeMeanings(tag.attributes), [])
    case Leaf(_, DeclarationLeaf, raw) => Declaration(Decoded(raw, VERBATIM))
    case Leaf(_, CommentLeaf, raw) => Comment(Decoded(raw, VERBATIM))
    case Leaf(_, CDataLeaf, raw) => Text(Decoded(raw, VERBATIM), true)
    case Leaf(_, UnknownLeaf, raw) => Unknown(Decoded(raw, VERBATIM))
    case Characters(raw) => Text(Decoded(raw, TEXT), false)
  }

  function NodeMeanings(xs: seq<NodeSpelling>): (r: seq<Node>)
    ensures |r| == |xs|
    decreases xs, 0
  {
    if xs == [] then [] else [NodeMeaning(xs[0])] + NodeMeanings(xs[1..])
  }

  // ---- Documents ----

  /** How a document ends: after white space, at the end of the text or at a NUL; or at an end tag
      that ends nothing, whatever follows it. */
  datatype TailSpelling = Ends(blank: Bytes, rest: Bytes) | Strays(lead: Bytes, tag: TagSpelling, rest: Bytes)

  predicate ValidTail(t: TailSpelling)
  {
    match t
    case Ends(blank, rest) => AllBlank(blank) && Peek(rest, 0) == 0
    case Strays(lead, tag, _) => AllBlank(lead) && ValidTag(tag) && tag.slash
  }

  function TailSpelt(t: TailSpelling): Bytes
  {
    match t
    case Ends(blank, rest) => blank + rest
    case Strays(lead, tag, rest) => EndSpelt(lead, tag) + rest
  }

  datatype DocumentSpelling = DocumentSpelling(lead: Bytes, bom: bool, kids: seq<NodeSpelling>, tail: TailSpelling)

  function BodySpelt(d: DocumentSpelling): Bytes { NodesSpelt(d.kids) + TailSpelt(d.tail) }

  function DocumentSpelt(d: DocumentSpelling): Bytes
  {
    d.lead + ((if d.bom then [0xEF, 0xBB, 0xBF] else []) + BodySpelt(d))
  }

  /** The text is not empty; without a byte order mark, what comes first is neither white space nor
      could be taken for one; and text is followed by markup. */
  ghost predicate ValidDocumentSpelling(d: DocumentSpelling)
  {
    && AllBlank(d.lead) && ValidList(d.kids, true) && ValidTail(d.tail)
    && (EndsInText(d.kids) ==> d.tail.Strays? && d.tail.lead == [])
    && var first := Peek(BodySpelt(d), 0);
       first != 0 && (!d.bom ==> !Blank(first) && !Matches(BodySpelt(d), 0, [0xEF, 0xBB, 0xBF]))
  }

  function DocumentMeaning(d: DocumentSpelling): Document { Document(d.bom, NodeMeanings(d.kids)) }
}
