/**
 The language of JSON texts, independently of any parser: for every value, all the ways to
 write it.  This is section 2 of RFC 4627 with the extensions that the parse flags allow.
 */
module JsonSpelling {
  import opened ByteStrings
  import Utf8
  import opened JsonLexer
  import opened JsonDocument

  // ---- What may stand between tokens ----

  datatype Filler =
    | Blank(c: Byte)
    | Block(body: Bytes)
    | Line(body: Bytes, ended: bool)      // not ended by a line feed only at the end of the text

  type Gap = seq<Filler>

  const STAR: Byte := 0x2A
  const SLASH: Byte := 0x2F

  predicate ValidFiller(x: Filler, f: Flags)
  {
    match x
    case Blank(c) => c == 0x20 || c == 0x09 || c == 0x0A || c == 0x0D
    case Block(body) =>
      f.comments && 0 !in body && forall k :: 0 <= k < |body| - 1 ==> !(body[k] == STAR && body[k + 1] == SLASH)
    case Line(body, _) => f.comments && 0 !in body && 0x0A !in body
  }

  function FillerText(x: Filler): Bytes
  {
    match x
    case Blank(c) => [c]
    case Block(body) => [SLASH, STAR] + (body + [STAR, SLASH])
    case Line(body, ended) => [SLASH, SLASH] + (body + if ended then [0x0A] else [])
  }

  function GapText(g: Gap): Bytes
  {
    if g == [] then [] else FillerText(g[0]) + GapText(g[1..])
  }

  /** `last` allows the gap to end in a line comment without a line feed. */
  predicate ValidGap(g: Gap, f: Flags, last: bool)
  {
    g != [] ==>
      && ValidFiller(g[0], f)
      && (g[0].Line? && !g[0].ended ==> last && |g| == 1)
      && ValidGap(g[1..], f, last)
  }

  // ---- Strings ----

  datatype Piece =
    | RawByte(c: Byte)                        // any byte, if the encoding is not validated
    | RawChar(cp: nat)                        // a character in UTF-8
    | Short(letter: Byte)                     // a backslash and a letter
    | Unit(digits: Bytes)                     // \u and four hexadecimal digits
    | Pair(high: Bytes, low: Bytes)           // two of them: a surrogate pair

  /** The two-character escapes. */
  function ShortMeaning(letter: Byte): Option<Byte>
  {
    if letter == Ch('"') then Some(0x22)
    else if letter == Ch('\\') then Some(0x5C)
    else if letter == Ch('/') then Some(0x2F)
    else if letter == Ch('b') then Some(0x08)
    else if letter == Ch('f') then Some(0x0C)
    else if letter == Ch('n') then Some(0x0A)
    else if letter == Ch('r') then Some(0x0D)
    else if letter == Ch('t') then Some(0x09)
    else None
  }

  /** A hexadecimal digit of either case. */
  function HexMeaning(c: Byte): (r: Option<nat>)
    ensures r.Some? ==> r.value < 16
  {
    if 0x30 <= c <= 0x39 then Some(c - 0x30)
    else if 0x41 <= c <= 0x46 then Some(c - 0x41 + 10)
    else if 0x61 <= c <= 0x66 then Some(c - 0x61 + 10)
    else None
  }

  predicate FourDigits(d: Bytes) { |d| == 4 && forall c <- d :: HexMeaning(c).Some? }

  function UnitValue(d: Bytes): (u: nat)
    requires FourDigits(d)
    ensures u <= 0xFFFF
  {
    assert d[0] in d && d[1] in d && d[2] in d && d[3] in d;
    ((HexMeaning(d[0]).value * 16 + HexMeaning(d[1]).value) * 16 + HexMeaning(d[2]).value) * 16 + HexMeaning(d[3]).value
  }

  predicate High(u: nat) { 0xD800 <= u <= 0xDBFF }
  predicate Low(u: nat) { 0xDC00 <= u <= 0xDFFF }

  predicate RawAllowed(c: nat) { c >= 0x20 && c != 0x22 && c != 0x5C }

  predicate ValidPiece(p: Piece, f: Flags)
  {
    match p
    case RawByte(c) => !f.validate && RawAllowed(c)
    case RawChar(cp) => Utf8.Scalar(cp) && RawAllowed(cp)
    case Short(letter) => ShortMeaning(letter).Some?
    case Unit(d) => FourDigits(d) && !High(UnitValue(d))
    case Pair(h, l) => FourDigits(h) && FourDigits(l) && High(UnitValue(h)) && Low(UnitValue(l))
  }

  function PieceText(p: Piece): Bytes
  {
    match p
    case RawByte(c) => [c]
    case RawChar(cp) => if cp <= 0x10FFFF then Utf8.Encode(cp) else []
    case Short(letter) => [0x5C, letter]
    case Unit(d) => [0x5C, Ch('u')] + d
    case Pair(h, l) => [0x5C, Ch('u')] + h + ([0x5C, Ch('u')] + l)
  }

  /** The character that a piece stands for. */
  function PieceChar(p: Piece, f: Flags): (cp: nat)
    requires ValidPiece(p, f)
    ensures cp <= 0x10FFFF
  {
    match p
    case RawByte(c) => c
    case RawChar(cp) => cp
    case Short(letter) => ShortMeaning(letter).value
    case Unit(d) => UnitValue(d)
    case Pair(h, l) => 0x10000 + (UnitValue(h) - 0xD800) * 0x400 + (UnitValue(l) - 0xDC00)
  }

  function PieceBytes(p: Piece, f: Flags): Bytes
    requires ValidPiece(p, f)
  {
    if p.RawByte? then [p.c] else Utf8.Encode(PieceChar(p, f))
  }

  predicate ValidPieces(ps: seq<Piece>, f: Flags) { forall p <- ps :: ValidPiece(p, f) }

  function PiecesText(ps: seq<Piece>): Bytes
  {
    if ps == [] then [] else PieceText(ps[0]) + PiecesText(ps[1..])
  }

  function PiecesBytes(ps: seq<Piece>, f: Flags): Bytes
    requires ValidPieces(ps, f)
  {
    if ps == [] then [] else PieceBytes(ps[0], f) + PiecesBytes(ps[1..], f)
  }

  function StringText(ps: seq<Piece>): Bytes { [0x22] + (PiecesText(ps) + [0x22]) }

  // ---- Numbers ----

  datatype Exponent = Exponent(upper: bool, sign: Option<bool>, digits: Bytes)    // the sign is a minus or not

  datatype NumberText = NumberText(minus: bool, whole: Bytes, fraction: Option<Bytes>, exponent: Option<Exponent>)

  predicate AllDigits(d: Bytes) { forall k :: 0 <= k < |d| ==> 0x30 <= d[k] <= 0x39 }

  /** No superfluous zero. */
  predicate ValidWhole(d: Bytes) { d != [] && AllDigits(d) && (|d| > 1 ==> d[0] != 0x30) }

  predicate ValidNumber(n: NumberText)
  {
    && ValidWhole(n.whole)
    && (n.fraction.Some? ==> n.fraction.value != [] && AllDigits(n.fraction.value))
    && (n.exponent.Some? ==> n.exponent.value.digits != [] && AllDigits(n.exponent.value.digits))
  }

  function ExponentText(e: Exponent): Bytes
  {
    [if e.upper then Ch('E') else Ch('e')]
    + ((if e.sign.None? then [] else if e.sign.value then [Ch('-')] else [Ch('+')]) + e.digits)
  }

  function NumberTextOf(n: NumberText): Bytes
  {
    (if n.minus then [Ch('-')] else [])
    + (n.whole
       + ((if n.fraction.Some? then [Ch('.')] + n.fraction.value else [])
          + if n.exponent.Some? then ExponentText(n.exponent.value) else []))
  }

  /** The number that digits write. */
  function NumberOf(d: Bytes): nat
    requires AllDigits(d)
  {
    if d == [] then 0
    else
      var k := |d| - 1;
      10 * NumberOf(d[..k]) + (d[k] - 0x30)
  }

  function Zeros(d: Bytes): (n: nat)
    ensures n <= |d|
  {
    if d == [] || d[0] != 0x30 then 0 else 1 + Zeros(d[1..])
  }

  function FractionOf(n: NumberText): Bytes { if n.fraction.Some? then n.fraction.value else [] }

  /** How many digits of the fraction count: the first digit other than 0 and 17 more, or 16 more
      if it stands in the fraction. */
  function Counted(whole: Bytes, fraction: Bytes): (k: nat)
    requires AllDigits(whole)
    ensures k <= |fraction|
  {
    var most := if NumberOf(whole) == 0 then Zeros(fraction) + 17 else if |whole| < 18 then 18 - |whole| else 0;
    if most < |fraction| then most else |fraction|
  }

  /** The digits that count, as one number. */
  function SignificandOf(n: NumberText): nat
    requires ValidNumber(n)
  {
    NumberOf(n.whole + FractionOf(n)[..Counted(n.whole, FractionOf(n))])
  }

  const EXPONENT_LIMIT: nat := 214748364

  /** The digits of a negative exponent, up to the one that reaches the limit. */
  function Limited(d: Bytes): nat
    requires AllDigits(d)
  {
    if d == [] then 0
    else if Limited(d[..|d| - 1]) >= EXPONENT_LIMIT then Limited(d[..|d| - 1])
    else NumberOf(d)
  }

  function ExponentOf(n: NumberText): int
    requires ValidNumber(n)
  {
    match n.exponent
    case None => 0
    case Some(e) => if e.sign == Some(true) then 0 - Limited(e.digits) else NumberOf(e.digits)
  }

  /** The value of a number.  Without fraction and exponent it is an exact integer, if 64 bits
      can hold it.  Otherwise it is a double, given by the digits that count and a power of ten.
      None where the source reports that a number is too big. */
  function NumberMeaning(n: NumberText): Option<JValue>
    requires ValidNumber(n)
  {
    var w := NumberOf(n.whole);
    var v := if n.minus then 0 - w else w;
    var big := v < -0x8000_0000_0000_0000 || v > 0xFFFF_FFFF_FFFF_FFFF;
    var k := Counted(n.whole, FractionOf(n));
    if big && w / 10 >= TooBig() then None
    else if ExponentOf(n) > 308 + k then None
    else if n.fraction.None? && n.exponent.None? && !big then Some(JNumber(Number(v, RangeFlags(v))))
    else Some(JDouble(n.minus, SignificandOf(n), ExponentOf(n) - k))
  }

  /** What may follow a number, so that it does not go on. */
  predicate NumberStops(n: NumberText, c: Byte)
  {
    if n.exponent.Some? then !(0x30 <= c <= 0x39)
    else if n.fraction.Some? then !(0x30 <= c <= 0x39) && c != Ch('e') && c != Ch('E')
    else (n.whole == [0x30] || !(0x30 <= c <= 0x39)) && c != Ch('.') && c != Ch('e') && c != Ch('E')
  }

  // ---- Values ----

  datatype Json =
    | NullText
    | BoolText(b: bool)
    | Numeral(n: NumberText)
    | Quote(pieces: seq<Piece>)
    | List(items: seq<Item>, comma: bool, tail: Gap)
    | Record(entries: seq<Entry>, comma: bool, tail: Gap)

  datatype Item = Item(before: Gap, value: Json, after: Gap)

  datatype Entry = Entry(before: Gap, name: seq<Piece>, between: Gap, next: Gap, value: Json, after: Gap)

  /** A comma after the last one, if the flags allow it, and what stands before the bracket. */
  predicate ValidTail(some: bool, comma: bool, tail: Gap, f: Flags)
  {
    ValidGap(tail, f, false) && (comma ==> some && f.trailingCommas) && (some && !comma ==> tail == [])
  }

  predicate ItemGaps(x: Item, f: Flags) { ValidGap(x.before, f, false) && ValidGap(x.after, f, false) }

  predicate EntryGaps(x: Entry, f: Flags)
  {
    && ValidGap(x.before, f, false) && ValidPieces(x.name, f) && ValidGap(x.between, f, false)
    && ValidGap(x.next, f, false) && ValidGap(x.after, f, false)
  }

  predicate ValidJson(j: Json, f: Flags)
  {
    match j
    case Numeral(n) => ValidNumber(n) && NumberMeaning(n).Some?
    case Quote(ps) => ValidPieces(ps, f)
    case List(items, comma, tail) =>
      ValidTail(items != [], comma, tail, f) && forall x <- items :: ItemGaps(x, f) && ValidJson(x.value, f)
    case Record(entries, comma, tail) =>
      ValidTail(entries != [], comma, tail, f) && forall x <- entries :: EntryGaps(x, f) && ValidJson(x.value, f)
    case _ => true
  }

  function TextOf(j: Json): Bytes
    decreases j, 2
  {
    match j
    case NullText => [Ch('n'), Ch('u'), Ch('l'), Ch('l')]
    case BoolText(b) => if b then [Ch('t'), Ch('r'), Ch('u'), Ch('e')] else [Ch('f'), Ch('a'), Ch('l'), Ch('s'), Ch('e')]
    case Numeral(n) => NumberTextOf(n)
    case Quote(ps) => StringText(ps)
    case List(items, comma, tail) =>
      [Ch('[')] + if items == [] then EndText(comma, tail, Ch(']'))
                  else ItemText(items[0]) + ItemsText(items[1..], comma, tail)
    case Record(entries, comma, tail) =>
      [Ch('{')] + if entries == [] then EndText(comma, tail, Ch('}'))
                  else EntryText(entries[0]) + EntriesText(entries[1..], comma, tail)
  }

  function EndText(comma: bool, tail: Gap, bracket: Byte): Bytes
  {
    (if comma then [Ch(',')] else []) + (GapText(tail) + [bracket])
  }

  function ItemText(x: Item): Bytes
    decreases x, 1
  {
    GapText(x.before) + (TextOf(x.value) + GapText(x.after))
  }

  /** The items after the first, and the end of the array. */
  function ItemsText(items: seq<Item>, comma: bool, tail: Gap): Bytes
    decreases items, 0
  {
    if items == [] then EndText(comma, tail, Ch(']'))
    else [Ch(',')] + (ItemText(items[0]) + ItemsText(items[1..], comma, tail))
  }

  function EntryText(x: Entry): Bytes
    decreases x, 1
  {
    GapText(x.before)
    + (StringText(x.name) + (GapText(x.between) + ([Ch(':')] + (GapText(x.next) + (TextOf(x.value) + GapText(x.after))))))
  }

  function EntriesText(entries: seq<Entry>, comma: bool, tail: Gap): Bytes
    decreases entries, 0
  {
    if entries == [] then EndText(comma, tail, Ch('}'))
    else [Ch(',')] + (EntryText(entries[0]) + EntriesText(entries[1..], comma, tail))
  }

  /** The value that is written. */
  function Meaning(j: Json, f: Flags): JValue
    requires ValidJson(j, f)
    decreases j, 1
  {
    match j
    case NullText => JNull
    case BoolText(b) => JBool(b)
    case Numeral(n) => NumberMeaning(n).value
    case Quote(ps) => JString(PiecesBytes(ps, f))
    case List(items, _, _) => JArray(ItemMeanings(items, f))
    case Record(entries, _, _) => JObject(EntryMeanings(entries, f))
  }

  function ItemMeanings(items: seq<Item>, f: Flags): seq<JValue>
    requires forall x <- items :: ItemGaps(x, f) && ValidJson(x.value, f)
    decreases items, 0
  {
    if items == [] then []
    else
      assert items[0] in items && forall x <- items[1..] :: x in items;
      [Meaning(items[0].value, f)] + ItemMeanings(items[1..], f)
  }

  function EntryMeanings(entries: seq<Entry>, f: Flags): seq<Member>
    requires forall x <- entries :: EntryGaps(x, f) && ValidJson(x.value, f)
    decreases entries, 0
  {
    if entries == [] then []
    else
      assert entries[0] in entries && EntryGaps(entries[0], f) && forall x <- entries[1..] :: x in entries;
      [Member(PiecesBytes(entries[0].name, f), Meaning(entries[0].value, f))] + EntryMeanings(entries[1..], f)
  }

  // ---- Texts ----

  /** A whole text: a value, and what stands around it. */
  datatype JsonText = JsonText(lead: Gap, value: Json, trail: Gap, rest: Bytes)

  function WholeText(t: JsonText): Bytes { GapText(t.lead) + (TextOf(t.value) + (GapText(t.trail) + t.rest)) }

  /** After the value only white space and comments may come; a text ends with its last byte, or
      before a NUL.  With the flag to stop when done, anything may follow that does not make a
      number longer. */
  predicate ValidText(t: JsonText, f: Flags)
  {
    && ValidGap(t.lead, f, false) && ValidJson(t.value, f)
    && if f.stopWhenDone then t.trail == [] && (t.value.Numeral? ==> NumberStops(t.value.n, Peek(t.rest, 0)))
       else ValidGap(t.trail, f, true) && Peek(t.rest, 0) == 0
  }
}
