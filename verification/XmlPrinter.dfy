/**
 The XML printer in compact mode: a visitor that appends to a buffer and remembers whether
 the last start tag still lacks its `>`.
 */
module XmlPrinter {
  import opened ByteStrings
  import opened XmlText
  import opened XmlParser

  // ---- The markup of a tree ----

  function AttributeText(a: Attribute): Bytes
  {
    [Ch(' ')] + a.name + [Ch('='), Ch('"')] + EscapedText(a.value, false) + [Ch('"')]
  }

  function AttributesText(attributes: seq<Attribute>): Bytes
  {
    if attributes == [] then [] else AttributeText(attributes[0]) + AttributesText(attributes[1..])
  }

  const SEALED: Bytes := [Ch('/'), Ch('>')]
  const END_TAG: Bytes := [Ch('<'), Ch('/')]

  function EndTag(name: Bytes): Bytes { END_TAG + name + [Ch('>')] }

  function StartTag(node: Node): Bytes
    requires node.Element?
  {
    [Ch('<')] + node.name + AttributesText(node.attributes)
  }

  function Markup(node: Node): (r: Bytes)
    ensures node.Element? || !node.Text? || node.cdata ==> r != [] && r[0] == Ch('<')
    decreases node, 1
  {
    match node
    case Element(name, _, kids) =>
      StartTag(node) + (if kids == [] then SEALED else [Ch('>')] + MarkupAll(kids) + EndTag(name))
    case Text(v, cdata) => if cdata then CDATA_HEADER + v + CDATA_END else EscapedText(v, true)
    case Comment(v) => COMMENT_HEADER + v + COMMENT_END
    case Declaration(v) => XML_HEADER + v + XML_END
    case Unknown(v) => DTD_HEADER + v + DTD_END
  }

  function MarkupAll(kids: seq<Node>): Bytes
    decreases kids, 0
  {
    if kids == [] then [] else Markup(kids[0]) + MarkupAll(kids[1..])
  }

  function Printed(d: Document): Bytes { (if d.bom then BOM else []) + MarkupAll(d.kids) }

  // ---- Strings ----

  lemma {:induction false} EscapedAppend(a: Bytes, b: Bytes, restricted: bool)
    ensures EscapedText(a + b, restricted) == EscapedText(a, restricted) + EscapedText(b, restricted)
    decreases |a|
  {
    hide EscapedByte;
    if a == [] {
      assert a + b == b;
    } else {
      assert (a + b)[1..] == a[1..] + b;
      EscapedAppend(a[1..], b, restricted);
      Associates(EscapedByte(a[0], restricted), EscapedText(a[1..], restricted), EscapedText(b, restricted));
    }
  }

  lemma {:induction false} EscapedRun(t: Bytes, restricted: bool)
    requires forall c <- t :: !NeedsEntity(c, restricted)
    ensures EscapedText(t, restricted) == t
    decreases |t|
  {
    if t != [] {
      EscapedRun(t[1..], restricted);
    }
  }

  const INT_MAX := 0x7FFF_FFFF

  /** The bytes after the last one that needs an entity. */
  function TailRun(t: Bytes, restricted: bool): (n: nat)
    ensures n <= |t|
  {
    if t == [] || NeedsEntity(t[|t| - 1], restricted) then 0 else 1 + TailRun(t[..|t| - 1], restricted)
  }

  /** The bytes from `p` to `q`, none of which needs an entity, are still to be printed. */
  ghost predicate Pending(t: Bytes, p: nat, q: nat, restricted: bool)
  {
    && p <= q <= |t|
    && (forall k :: p <= k < q ==> !NeedsEntity(t[k], restricted))
    && (p > 0 ==> NeedsEntity(t[p - 1], restricted))
  }

  lemma PendingText(t: Bytes, p: nat, q: nat, restricted: bool)
    requires Pending(t, p, q, restricted)
    ensures EscapedText(t[..q], restricted) == EscapedText(t[..p], restricted) + t[p..q]
  {
    hide EscapedText, NeedsEntity;
    assert t[..q] == t[..p] + t[p..q];
    EscapedAppend(t[..p], t[p..q], restricted);
    EscapedRun(t[p..q], restricted);
  }

  lemma {:induction false} PendingTail(t: Bytes, p: nat, q: nat, restricted: bool)
    requires Pending(t, p, q, restricted)
    ensures TailRun(t[..q], restricted) == q - p
    decreases q
  {
    hide NeedsEntity;
    if p < q {
      PendingTail(t, p, q - 1, restricted);
      assert t[..q][..q - 1] == t[..q - 1];
    }
  }

  lemma EntityStep(t: Bytes, q: nat, restricted: bool)
    requires q < |t| && NeedsEntity(t[q], restricted)
    ensures EscapedText(t[..q + 1], restricted)
            == EscapedText(t[..q], restricted) + [Ch('&')] + PatternOf(t[q]) + [Ch(';')]
  {
    hide EscapedText, PatternOf;
    assert t[..q + 1] == t[..q] + [t[q]];
    EscapedAppend(t[..q], [t[q]], restricted);
    EscapedOne(t[q], restricted);
    var before, pattern := EscapedText(t[..q], restricted), PatternOf(t[q]);
    Associates(before, [Ch('&')] + pattern, [Ch(';')]);
    Associates(before, [Ch('&')], pattern);
  }

  lemma EscapedOne(c: Byte, restricted: bool)
    ensures EscapedText([c], restricted) == EscapedByte(c, restricted)
  {
    hide EscapedByte;
    assert [c][1..] == [];
    assert EscapedText([], restricted) == [];
  }

  /** The part of a string that is printed: one call writes the run at its end, and stops at
      INT_MAX bytes. */
  function CutText(t: Bytes, restricted: bool): Bytes
  {
    var n := TailRun(t, restricted);
    if n <= INT_MAX then t else t[..|t| - n + INT_MAX]
  }

  /** PrintString: runs of plain bytes are written whole, and bytes that need it as entities;
      of a longer run at the end, only INT_MAX bytes. */
  method PrintString(buffer: Bytes, t: Bytes, restricted: bool) returns (out: Bytes)
    ensures out == buffer + EscapedText(CutText(t, restricted), restricted)
  {
    hide EscapedText, CutText;
    var p: nat, q: nat := 0, 0;
    out := buffer;
    assert t[..0] == [];
    EscapedNone(restricted);
    while q < |t|
      invariant Pending(t, p, q, restricted)
      invariant out == buffer + EscapedText(t[..p], restricted)
    {
      if NeedsEntity(t[q], restricted) {
        out := PrintEntity(buffer, out, t, p, q, restricted);
        p := q + 1;
      }
      q := q + 1;
    }
    out := PrintTail(buffer, out, t, p, restricted);
  }

  /** The run from `p` to `q`, and the entity at `q`. */
  method PrintEntity(ghost buffer: Bytes, sofar: Bytes, t: Bytes, p: nat, q: nat, restricted: bool) returns (out: Bytes)
    requires Pending(t, p, q, restricted) && q < |t| && NeedsEntity(t[q], restricted)
    requires sofar == buffer + EscapedText(t[..p], restricted)
    ensures out == buffer + EscapedText(t[..q + 1], restricted)
  {
    hide EscapedText, PatternOf;
    PendingText(t, p, q, restricted);
    EntityStep(t, q, restricted);
    out := FlushRun(sofar, t, p, q);
    ghost var before := EscapedText(t[..q], restricted);
    Associates(buffer, EscapedText(t[..p], restricted), t[p..q]);
    out := out + [Ch('&')] + PatternOf(t[q]) + [Ch(';')];
    Associates(buffer, before, [Ch('&')]);
    Associates(buffer, before + [Ch('&')], PatternOf(t[q]));
    Associates(buffer, before + [Ch('&')] + PatternOf(t[q]), [Ch(';')]);
  }

  /** The run at the end. */
  method PrintTail(ghost buffer: Bytes, sofar: Bytes, t: Bytes, p: nat, restricted: bool) returns (out: Bytes)
    requires Pending(t, p, |t|, restricted) && sofar == buffer + EscapedText(t[..p], restricted)
    ensures out == buffer + EscapedText(CutText(t, restricted), restricted)
  {
    hide EscapedText, TailRun, NeedsEntity;
    PendingTail(t, p, |t|, restricted);
    assert t[..|t|] == t;
    var n := if |t| - p > INT_MAX then INT_MAX else |t| - p;
    PendingText(t, p, p + n, restricted);
    assert t[..p + n] == CutText(t, restricted);
    out := sofar + t[p..p + n];
    Associates(buffer, EscapedText(t[..p], restricted), t[p..p + n]);
  }

  /** A run of INT_MAX + 1 plain bytes loses its last byte. */
  lemma LongRun(t: Bytes, restricted: bool)
    requires |t| == INT_MAX + 1 && forall c <- t :: !NeedsEntity(c, restricted)
    ensures TailRun(t, restricted) == |t| && EscapedText(CutText(t, restricted), restricted) == t[..INT_MAX] != t
    ensures EscapedText(t, restricted) == t
  {
    hide NeedsEntity, EscapedText, TailRun;
    assert Pending(t, 0, |t|, restricted);
    PendingTail(t, 0, |t|, restricted);
    assert t[..|t|] == t;
    EscapedRun(t, restricted);
    EscapedRun(t[..INT_MAX], restricted);
  }

  method FlushRun(buffer: Bytes, t: Bytes, from: nat, q: nat) returns (out: Bytes)
    requires from <= q <= |t|
    ensures out == buffer + t[from..q]
  {
    var p := from;
    out := buffer;
    while p < q
      invariant from <= p <= q && out == buffer + t[from..p]
    {
      var n := if q - p > INT_MAX then INT_MAX else q - p;
      out := out + t[p..p + n];
      assert t[from..p] + t[p..p + n] == t[from..p + n];
      p := p + n;
    }
  }

  // ---- The visitor ----

  /** No value ends in a run that PrintString cuts short. */
  predicate Sized(node: Node)
  {
    match node
    case Element(_, attributes, kids) =>
      (forall a <- attributes :: TailRun(a.value, false) <= INT_MAX) && forall k <- kids :: Sized(k)
    case Text(v, cdata) => cdata || TailRun(v, true) <= INT_MAX
    case _ => true
  }

  /** The tree that is printed in place of a tree. */
  function CutNode(node: Node): (r: Node)
    decreases node, 1
  {
    match node
    case Element(name, attributes, kids) => Element(name, CutAttributes(attributes), CutAll(kids))
    case Text(v, cdata) => if cdata then node else Text(CutText(v, true), false)
    case _ => node
  }

  function CutAttributes(attributes: seq<Attribute>): (r: seq<Attribute>)
    ensures |r| == |attributes|
  {
    if attributes == [] then []
    else [attributes[0].(value := CutText(attributes[0].value, false))] + CutAttributes(attributes[1..])
  }

  function CutAll(kids: seq<Node>): (r: seq<Node>)
    ensures |r| == |kids|
    decreases kids, 0
  {
    if kids == [] then [] else [CutNode(kids[0])] + CutAll(kids[1..])
  }

  /** A tree is printed as it is exactly if no value of it ends in too long a run. */
  lemma {:induction false} CutNothing(node: Node)
    ensures CutNode(node) == node <==> Sized(node)
    decreases node, 1
  {
    hide TailRun;
    match node
    case Element(_, attributes, kids) =>
      CutNoAttribute(attributes);
      CutNone(kids);
    case _ =>
  }

  lemma {:induction false} CutNoAttribute(attributes: seq<Attribute>)
    ensures CutAttributes(attributes) == attributes <==> forall a <- attributes :: TailRun(a.value, false) <= INT_MAX
    decreases |attributes|
  {
    hide TailRun;
    if attributes != [] {
      CutNoAttribute(attributes[1..]);
      assert attributes == [attributes[0]] + attributes[1..];
      assert CutAttributes(attributes)[1..] == CutAttributes(attributes[1..]);
    }
  }

  lemma {:induction false} CutNone(kids: seq<Node>)
    ensures CutAll(kids) == kids <==> forall k <- kids :: Sized(k)
    decreases kids, 0
  {
    hide Sized, CutNode;
    if kids != [] {
      CutNothing(kids[0]);
      CutNone(kids[1..]);
      assert kids == [kids[0]] + kids[1..];
      assert CutAll(kids)[1..] == CutAll(kids[1..]);
    }
  }

  class Printer {
    var out: Bytes
    var stack: seq<Bytes>
    var depth: nat
    var textDepth: int
    var elementJustOpened: bool
    var firstElement: bool

    constructor ()
      ensures out == [] && stack == [] && depth == 0 && !elementJustOpened
    {
      out, stack, depth, textDepth, elementJustOpened, firstElement := [], [], 0, -1, false, true;
    }

    /** Everything printed so far, with the `>` that a start tag may still lack. */
    function Sealed(): Bytes
      reads this
    {
      out + if elementJustOpened then [Ch('>')] else []
    }

    method SealElementIfJustOpened()
      modifies this
      ensures out == old(Sealed()) && !elementJustOpened
      ensures stack == old(stack) && depth == old(depth)
    {
      if elementJustOpened {
        elementJustOpened := false;
        out := out + [Ch('>')];
      } else {
        assert out + [] == out;
      }
    }

    method OpenElement(name: Bytes)
      modifies this
      ensures out == old(Sealed()) + [Ch('<')] + name && elementJustOpened
      ensures stack == old(stack) + [name] && depth == old(depth) + 1
    {
      SealElementIfJustOpened();
      stack := stack + [name];
      out := out + [Ch('<')] + name;
      elementJustOpened, firstElement := true, false;
      depth := depth + 1;
    }

    method PushAttribute(a: Attribute)
      requires elementJustOpened
      modifies this`out
      ensures out == old(out) + AttributeText(a.(value := CutText(a.value, false)))
    {
      ghost var before := out;
      out := out + [Ch(' ')] + a.name + [Ch('='), Ch('"')];
      out := PrintString(out, a.value, false);
      out := out + [Ch('"')];
      assert out == before + AttributeText(a.(value := CutText(a.value, false)));
    }

    method CloseElement()
      requires stack != [] && depth > 0
      modifies this
      ensures out == old(out) + if old(elementJustOpened) then SEALED else EndTag(old(stack)[|old(stack)| - 1])
      ensures stack == old(stack)[..|old(stack)| - 1] && depth == old(depth) - 1 && !elementJustOpened
    {
      depth := depth - 1;
      var name := stack[|stack| - 1];
      stack := stack[..|stack| - 1];
      if elementJustOpened {
        out := out + SEALED;
      } else {
        Associates(out, END_TAG, name);
        Associates(out, END_TAG + name, [Ch('>')]);
        out := out + END_TAG;
        out := out + name;
        out := out + [Ch('>')];
      }
      if textDepth == depth {
        textDepth := -1;
      }
      elementJustOpened := false;
    }

    method PushText(v: Bytes, cdata: bool)
      modifies this
      ensures out == old(Sealed()) + Markup(CutNode(Text(v, cdata))) && !elementJustOpened
      ensures stack == old(stack) && depth == old(depth)
    {
      textDepth := depth - 1;
      SealElementIfJustOpened();
      if cdata {
        out := out + CDATA_HEADER + v + CDATA_END;
      } else {
        out := PrintString(out, v, true);
      }
    }

    /** PushComment, PushDeclaration and PushUnknown. */
    method PushVerbatim(header: Bytes, v: Bytes, end: Bytes)
      modifies this
      ensures out == old(Sealed()) + (header + v + end) && !elementJustOpened
      ensures stack == old(stack) && depth == old(depth)
    {
      SealElementIfJustOpened();
      firstElement := false;
      out := out + header + v + end;
    }

    method PushAttributes(attributes: seq<Attribute>)
      requires elementJustOpened
      modifies this`out
      ensures out == old(out) + AttributesText(CutAttributes(attributes))
    {
      hide AttributeText, CutText;
      ghost var all := out + AttributesText(CutAttributes(attributes));
      for i := 0 to |attributes|
        invariant out + AttributesText(CutAttributes(attributes[i..])) == all
      {
        ghost var rest, a := attributes[i..], attributes[i].(value := CutText(attributes[i].value, false));
        assert rest[1..] == attributes[i + 1..];
        assert CutAttributes(rest)[1..] == CutAttributes(rest[1..]);
        Associates(out, AttributeText(a), AttributesText(CutAttributes(rest[1..])));
        PushAttribute(attributes[i]);
      }
      assert out + [] == out;
    }

    /** XMLElement::Accept and the Visit methods: the text of the tree is appended, the stack
        and the depth are as before, and no start tag is left open. */
    method Accept(node: Node)
      modifies this
      ensures out == old(Sealed()) + Markup(CutNode(node)) && !elementJustOpened
      ensures stack == old(stack) && depth == old(depth)
      decreases node, 1
    {
      match node
      case Element(name, attributes, kids) =>
        ghost var before, below := Sealed(), stack;
        OpenElement(name);
        PushAttributes(attributes);
        assert out == before + StartTag(CutNode(node));
        AcceptAll(kids);
        CloseElement();
        assert stack == below;
        ElementText(CutNode(node), before);
      case Text(v, cdata) => PushText(v, cdata);
      case Comment(v) => PushVerbatim(COMMENT_HEADER, v, COMMENT_END);
      case Declaration(v) => PushVerbatim(XML_HEADER, v, XML_END);
      case Unknown(v) => PushVerbatim(DTD_HEADER, v, DTD_END);
    }

    method AcceptAll(kids: seq<Node>)
      modifies this
      ensures kids == [] ==> out == old(out) && elementJustOpened == old(elementJustOpened)
      ensures kids != [] ==> out == old(Sealed()) + MarkupAll(CutAll(kids)) && !elementJustOpened
      ensures stack == old(stack) && depth == old(depth)
      decreases kids, 0
    {
      hide Markup, CutNode;
      ghost var all := Sealed() + MarkupAll(CutAll(kids));
      for i := 0 to |kids|
        invariant Sealed() + MarkupAll(CutAll(kids[i..])) == all
        invariant if i == 0 then out == old(out) && elementJustOpened == old(elementJustOpened) else !elementJustOpened
        invariant stack == old(stack) && depth == old(depth)
      {
        ghost var rest := kids[i..];
        assert rest[1..] == kids[i + 1..];
        assert CutAll(rest)[1..] == CutAll(rest[1..]);
        Associates(Sealed(), Markup(CutNode(kids[i])), MarkupAll(CutAll(rest[1..])));
        Accept(kids[i]);
        assert out + [] == out;
      }
      assert out + [] == out;
    }
  }

  lemma ElementText(node: Node, before: Bytes)
    requires node.Element?
    ensures var open := before + StartTag(node);
            before + Markup(node)
            == if node.kids == [] then open + SEALED
               else open + [Ch('>')] + MarkupAll(node.kids) + EndTag(node.name)
  {
    var open := StartTag(node);
    if node.kids == [] {
      Associates(before, open, SEALED);
    } else {
      var inner, end := MarkupAll(node.kids), EndTag(node.name);
      assert before + (open + ([Ch('>')] + inner + end)) == before + open + [Ch('>')] + inner + end;
    }
  }

  /** Printing a document. */
  method Print(d: Document) returns (text: Bytes)
    ensures text == Printed(d.(kids := CutAll(d.kids)))
    ensures (forall k <- d.kids :: Sized(k)) ==> text == Printed(d)
  {
    var printer := new Printer();
    if d.bom {
      printer.out := printer.out + BOM;
    }
    assert printer.Sealed() == if d.bom then BOM else [];
    CutNone(d.kids);
    printer.AcceptAll(d.kids);
    text := printer.out;
  }
}
