/**
 Strings in XML: escaping by the printer, and the decoding that rewrites the parse buffer
 in place with a read and a write pointer.
 */
module XmlText {
  import opened ByteStrings
  import Utf8

  const LF: Byte := 10
  const CR: Byte := 13

  /** The processing that a string still needs. */
  datatype Needs = Needs(entities: bool, newlines: bool)

  const TEXT := Needs(true, true)
  const VERBATIM := Needs(false, true)

  // ---- Entities ----

  const QUOT: Bytes := [Ch('q'), Ch('u'), Ch('o'), Ch('t')]
  const AMP: Bytes := [Ch('a'), Ch('m'), Ch('p')]
  const APOS: Bytes := [Ch('a'), Ch('p'), Ch('o'), Ch('s')]
  const LT: Bytes := [Ch('l'), Ch('t')]
  const GT: Bytes := [Ch('g'), Ch('t')]

  datatype Entity = Entity(pattern: Bytes, value: Byte)

  const ENTITIES: seq<Entity> :=
    [Entity(QUOT, Ch('"')), Entity(AMP, Ch('&')), Entity(APOS, Ch('\'')), Entity(LT, Ch('<')), Entity(GT, Ch('>'))]

  /** The entity named after the ampersand at `p`, from the `k`-th table entry on. */
  function FindEntity(s: Bytes, p: nat, k: nat): (r: Option<Entity>)
    ensures r.Some? ==> p + |r.value.pattern| + 2 <= |s| && r.value.pattern != []
    decreases 5 - k
  {
    if k >= 5 then None
    else
      var e := ENTITIES[k];
      if Matches(s, p + 1, e.pattern) && Peek(s, p + 1 + |e.pattern|) == Ch(';') then Some(e)
      else FindEntity(s, p, k + 1)
  }

  // ---- Character references ----

  function Digit(c: Byte, hex: bool): (r: Option<nat>)
    ensures r.Some? ==> r.value < if hex then 16 else 10
  {
    if IsDigit(c) then Some(c - Ch('0'))
    else if !hex then None
    else if Ch('a') <= c <= Ch('f') then Some(c - Ch('a') + 10)
    else if Ch('A') <= c <= Ch('F') then Some(c - Ch('A') + 10)
    else None
  }

  /** The first semicolon from `i` on, before any terminator. */
  function Semicolon(s: Bytes, i: nat): (r: Option<nat>)
    ensures r.Some? ==> i <= r.value < |s| && s[r.value] == Ch(';')
    decreases |s| - i
  {
    if Peek(s, i) == 0 then None
    else if s[i] == Ch(';') then Some(i)
    else Semicolon(s, i + 1)
  }

  function Mark(hex: bool): Byte { if hex then Ch('x') else Ch('#') }
  function Base(hex: bool): nat { if hex then 16 else 10 }

  /** The digits before `q`, read backwards to the nearest mark.  `mult` is 32 bits wide. */
  function ReadBack(s: Bytes, lo: nat, q: nat, hex: bool, mult: nat, ucs: nat): (r: Option<nat>)
    requires lo < q <= |s| && s[lo] == Mark(hex)
    decreases q
  {
    var c := s[q - 1];
    if c == Mark(hex) then Some(ucs)
    else
      match Digit(c, hex)
      case None => None
      case Some(d) => ReadBack(s, lo, q - 1, hex, mult * Base(hex) % WIDTH, ucs + mult * d % WIDTH)
  }

  /** ConvertUTF32ToUTF8: nothing at all from 0x200000 on. */
  function ToUtf8(u: nat): (r: Bytes)
    ensures |r| <= 4 && (u < 0x80 ==> |r| == 1)
  {
    if u < 0x80 then [u]
    else if u < 0x800 then [0xC0 + u / 64, 0x80 + u % 64]
    else if u < 0x10000 then [0xE0 + u / 4096, 0x80 + u / 64 % 64, 0x80 + u % 64]
    else if u < 0x200000 then [0xF0 + u / 262144, 0x80 + u / 4096 % 64, 0x80 + u / 64 % 64, 0x80 + u % 64]
    else []
  }

  datatype Piece = Copy(bytes: Bytes, next: nat) | Keep(next: nat)

  /** The reference at `p`, where `&#` stands; None if it is malformed. */
  function CharacterRef(s: Bytes, p: nat): (r: Option<Piece>)
    requires p + 1 < |s| && s[p + 1] == Ch('#')
  {
    if Peek(s, p + 2) == 0 then Some(Copy([], p + 1))
    else
      var hex := s[p + 2] == Ch('x');
      var lo := if hex then p + 2 else p + 1;
      match Semicolon(s, lo + 1)
      case None => None
      case Some(end) =>
        match ReadBack(s, lo, end, hex, 1, 0)
        case None => None
        case Some(ucs) => Some(Copy(ToUtf8(ucs), end + 1))
  }

  // ---- Decoding ----

  /** What stands at `p`: the bytes it decodes to.  Keep is the unknown entity, for which the
      write pointer moves without a write. */
  function NextPiece(s: Bytes, f: Needs, p: nat): (r: Piece)
    requires p < |s|
    ensures p < r.next <= |s| && (r.Copy? ==> |r.bytes| <= r.next - p) && (r.Keep? ==> s[p] == Ch('&'))
  {
    if f.newlines && s[p] == CR then Copy([LF], if Peek(s, p + 1) == LF then p + 2 else p + 1)
    else if f.newlines && s[p] == LF then Copy([LF], if Peek(s, p + 1) == CR then p + 2 else p + 1)
    else if f.entities && s[p] == Ch('&') then
      if Peek(s, p + 1) == Ch('#') then
        match CharacterRef(s, p)
        case None => Copy([s[p]], p + 1)
        case Some(piece) => piece
      else
        match FindEntity(s, p, 0)
        case None => Keep(p + 1)
        case Some(e) => Copy([e.value], p + |e.pattern| + 2)
    else Copy([s[p]], p + 1)
  }

  /** The decoding loop.  All bytes from the write pointer on are still those of `s`, so a
      skipped write leaves the byte of `s` at that place. */
  function InPlace(s: Bytes, f: Needs, p: nat, out: Bytes): (r: Bytes)
    requires |out| <= p <= |s|
    ensures |out| <= |r| <= |s|
    decreases |s| - p
  {
    if p == |s| then out
    else
      match NextPiece(s, f, p)
      case Copy(bytes, next) => InPlace(s, f, next, out + bytes)
      case Keep(next) => InPlace(s, f, next, out + [s[|out|]])
  }

  function Decoded(s: Bytes, f: Needs): Bytes { InPlace(s, f, 0, []) }

  /** Out of place, an unknown entity would keep its ampersand. */
  function Unescaped(s: Bytes, f: Needs, p: nat): (r: Bytes)
    requires p <= |s|
    decreases |s| - p
  {
    if p == |s| then []
    else
      match NextPiece(s, f, p)
      case Copy(bytes, next) => bytes + Unescaped(s, f, next)
      case Keep(next) => [s[p]] + Unescaped(s, f, next)
  }

  /** Wherever an unknown entity is met, the write pointer (`q`) stands on an ampersand. */
  predicate OnAmpersand(s: Bytes, f: Needs, p: nat, q: nat)
    requires q <= p <= |s|
    decreases |s| - p
  {
    p == |s| ||
    match NextPiece(s, f, p)
    case Copy(bytes, next) => OnAmpersand(s, f, next, q + |bytes|)
    case Keep(next) => s[q] == Ch('&') && OnAmpersand(s, f, next, q + 1)
  }

  lemma {:induction false} InPlaceExtends(s: Bytes, f: Needs, p: nat, out: Bytes)
    requires |out| <= p <= |s|
    ensures out <= InPlace(s, f, p, out)
    ensures |InPlace(s, f, p, out)| == |out| + |Unescaped(s, f, p)|
    decreases |s| - p
  {
    hide NextPiece;
    if p < |s| {
      match NextPiece(s, f, p)
      case Copy(bytes, next) => InPlaceExtends(s, f, next, out + bytes);
      case Keep(next) => InPlaceExtends(s, f, next, out + [s[|out|]]);
    }
  }

  /** The in-place loop equals the out-of-place one exactly when every unknown entity finds
      the write pointer on an ampersand. */
  lemma {:induction false} InPlaceExact(s: Bytes, f: Needs, p: nat, out: Bytes)
    requires |out| <= p <= |s|
    ensures InPlace(s, f, p, out) == out + Unescaped(s, f, p) <==> OnAmpersand(s, f, p, |out|)
    decreases |s| - p
  {
    hide NextPiece;
    if p == |s| {
      assert out + [] == out;
    } else {
      match NextPiece(s, f, p)
      case Copy(bytes, next) =>
        InPlaceExact(s, f, next, out + bytes);
        assert out + (bytes + Unescaped(s, f, next)) == out + bytes + Unescaped(s, f, next);
      case Keep(next) =>
        var here := out + [s[|out|]];
        InPlaceExact(s, f, next, here);
        InPlaceExtends(s, f, next, here);
        OneByteMore(out, s[|out|], s[p], Unescaped(s, f, next), InPlace(s, f, next, here));
    }
  }

  lemma OneByteMore(out: Bytes, a: Byte, b: Byte, rest: Bytes, all: Bytes)
    requires out + [a] <= all
    ensures all == out + ([b] + rest) <==> a == b && all == out + [a] + rest
  {
    assert all[|out|] == (out + [a])[|out|] == a;
    assert (out + ([b] + rest))[|out|] == b;
    assert out + ([b] + rest) == out + [b] + rest;
  }

  /** `<` followed by an unknown entity: the ampersand is lost and a stale byte appears. */
  lemma UnknownEntityShows()
    ensures var s: Bytes := [Ch('&'), Ch('l'), Ch('t'), Ch(';'), Ch('&'), Ch('z')];
            && Decoded(s, TEXT) == [Ch('<'), Ch('l'), Ch('z')]
            && Unescaped(s, TEXT, 0) == [Ch('<'), Ch('&'), Ch('z')]
  {
    hide CharacterRef;
    var s: Bytes := [Ch('&'), Ch('l'), Ch('t'), Ch(';'), Ch('&'), Ch('z')];
    assert FindEntity(s, 0, 3) == Some(Entity(LT, Ch('<')));
    assert FindEntity(s, 0, 0) == FindEntity(s, 0, 1) == FindEntity(s, 0, 2) == FindEntity(s, 0, 3);
    assert NextPiece(s, TEXT, 0) == Copy([Ch('<')], 4);
    assert FindEntity(s, 4, 0) == FindEntity(s, 4, 1) == FindEntity(s, 4, 2) == FindEntity(s, 4, 3)
        == FindEntity(s, 4, 4) == None;
    assert NextPiece(s, TEXT, 4) == Keep(5);
    assert NextPiece(s, TEXT, 5) == Copy([Ch('z')], 6);
    assert InPlace(s, TEXT, 6, [Ch('<'), Ch('l'), Ch('z')]) == [Ch('<'), Ch('l'), Ch('z')];
    assert InPlace(s, TEXT, 5, [Ch('<'), Ch('l')]) == [Ch('<'), Ch('l'), Ch('z')];
    assert InPlace(s, TEXT, 4, [Ch('<')]) == [Ch('<'), Ch('l'), Ch('z')];
    assert Unescaped(s, TEXT, 6) == [];
    assert Unescaped(s, TEXT, 5) == [Ch('z')];
    assert Unescaped(s, TEXT, 4) == [Ch('&'), Ch('z')];
  }

  // ---- Escaping ----

  /** The two flag tables of the printer: text escapes only three characters. */
  predicate NeedsEntity(c: Byte, restricted: bool)
  {
    c == Ch('&') || c == Ch('<') || c == Ch('>') || (!restricted && (c == Ch('"') || c == Ch('\'')))
  }

  function PatternOf(c: Byte): Bytes
    requires NeedsEntity(c, false)
  {
    if c == Ch('"') then QUOT else if c == Ch('&') then AMP else if c == Ch('\'') then APOS
    else if c == Ch('<') then LT else GT
  }

  function EscapedByte(c: Byte, restricted: bool): (r: Bytes)
    ensures r != []
  {
    if NeedsEntity(c, restricted) then [Ch('&')] + PatternOf(c) + [Ch(';')] else [c]
  }

  function EscapedText(t: Bytes, restricted: bool): Bytes
  {
    if t == [] then [] else EscapedByte(t[0], restricted) + EscapedText(t[1..], restricted)
  }

  function IndexOf(c: Byte): nat
    requires NeedsEntity(c, false)
  {
    if c == Ch('"') then 0 else if c == Ch('&') then 1 else if c == Ch('\'') then 2 else if c == Ch('<') then 3 else 4
  }

  /** No two patterns can stand at the same place. */
  lemma PatternsDiffer(s: Bytes, i: nat, c: Byte, k: nat)
    requires NeedsEntity(c, false) && k < 5 && k != IndexOf(c) && Matches(s, i, PatternOf(c))
    ensures !Matches(s, i, ENTITIES[k].pattern)
  {
    First(s, i, PatternOf(c));
    assert s[i + 1] == PatternOf(c)[1];
    var w := ENTITIES[k].pattern;
    assert s[i + 0] != w[0] || s[i + 1] != w[1];
  }

  lemma EntityFound(s: Bytes, p: nat, c: Byte)
    requires NeedsEntity(c, false) && Matches(s, p, [Ch('&')] + PatternOf(c) + [Ch(';')])
    ensures FindEntity(s, p, 0) == Some(Entity(PatternOf(c), c)) && s[p] == Ch('&') && Peek(s, p + 1) != Ch('#')
  {
    hide Matches, FindEntity;
    MatchesSplit(s, p, [Ch('&')] + PatternOf(c), [Ch(';')]);
    MatchesSplit(s, p, [Ch('&')], PatternOf(c));
    First(s, p, [Ch('&')]);
    First(s, p + 1, PatternOf(c));
    First(s, p + 1 + |PatternOf(c)|, [Ch(';')]);
    forall k | 0 <= k < IndexOf(c)
      ensures !Matches(s, p + 1, ENTITIES[k].pattern)
    {
      PatternsDiffer(s, p + 1, c, k);
    }
    EntityAt(s, p, 0, IndexOf(c));
  }

  lemma {:induction false} EntityAt(s: Bytes, p: nat, j: nat, k: nat)
    requires j <= k < 5 && forall i | j <= i < k :: !Matches(s, p + 1, ENTITIES[i].pattern)
    requires Matches(s, p + 1, ENTITIES[k].pattern) && Peek(s, p + 1 + |ENTITIES[k].pattern|) == Ch(';')
    ensures FindEntity(s, p, j) == Some(ENTITIES[k])
    decreases k - j
  {
    if j < k {
      EntityAt(s, p, j + 1, k);
    }
  }

  /** One printed byte that is no line end decodes to itself. */
  lemma EscapedPiece(s: Bytes, p: nat, c: Byte, restricted: bool)
    requires Matches(s, p, EscapedByte(c, restricted)) && c != CR && c != LF
    ensures NextPiece(s, TEXT, p) == Copy([c], p + |EscapedByte(c, restricted)|)
  {
    hide FindEntity, Matches;
    if NeedsEntity(c, restricted) {
      EntityFound(s, p, c);
    } else {
      First(s, p, [c]);
    }
  }

  lemma SuffixMatches(s: Bytes, p: nat, a: Bytes, b: Bytes)
    requires p <= |s| && s[p..] == a + b
    ensures Matches(s, p, a) && s[p + |a|..] == b
  {
    forall k | 0 <= k < |a|
      ensures s[p + k] == a[k]
    {
      assert s[p..][k] == s[p + k];
    }
    assert s[p + |a|..] == s[p..][|a|..];
  }

  /** Line ends normalised: CR, CR LF and LF CR become LF. */
  function Normal(t: Bytes): (r: Bytes)
    ensures CR !in r
    decreases |t|
  {
    if t == [] then []
    else if t[0] == CR then [LF] + Normal(if |t| > 1 && t[1] == LF then t[2..] else t[1..])
    else if t[0] == LF then [LF] + Normal(if |t| > 1 && t[1] == CR then t[2..] else t[1..])
    else [t[0]] + Normal(t[1..])
  }

  lemma EscapedFirst(t: Bytes, restricted: bool)
    requires t != []
    ensures var e := EscapedText(t, restricted);
            && e != [] && e[0] == (if NeedsEntity(t[0], restricted) then Ch('&') else t[0])
            && (!NeedsEntity(t[0], restricted) ==> e[1..] == EscapedText(t[1..], restricted))
  {
  }

  /** Decoding what the printer wrote gives the text back, with its line ends normalised. */
  lemma {:induction false} EscapedDecodes(s: Bytes, p: nat, out: Bytes, t: Bytes, restricted: bool)
    requires |out| <= p <= |s| && s[p..] == EscapedText(t, restricted)
    ensures InPlace(s, TEXT, p, out) == out + Normal(t)
    decreases |t|, 1
  {
    hide NextPiece, EscapedText;
    if t == [] {
      assert EscapedText(t, restricted) == [] by { EscapedNone(restricted); }
      assert out + [] == out;
    } else {
      if t[0] == CR || t[0] == LF {
        var rest := LineEndPiece(s, p, t, restricted);
        EscapedDecodes(s, NextPiece(s, TEXT, p).next, out + [LF], rest, restricted);
        Associates(out, [LF], Normal(rest));
      } else {
        PlainDecodes(s, p, out, t, restricted);
      }
    }
  }

  lemma LineEndPiece(s: Bytes, p: nat, t: Bytes, restricted: bool) returns (rest: Bytes)
    requires p <= |s| && s[p..] == EscapedText(t, restricted) && t != [] && (t[0] == CR || t[0] == LF)
    ensures var piece := NextPiece(s, TEXT, p);
            piece.Copy? && piece.bytes == [LF] && s[piece.next..] == EscapedText(rest, restricted)
    ensures |rest| < |t| && Normal(t) == [LF] + Normal(rest)
  {
    hide EscapedText, CharacterRef, FindEntity;
    EscapedFirst(t, restricted);
    assert s[p] == s[p..][0];
    assert s[p + 1..] == s[p..][1..];
    if |t| > 1 {
      EscapedFirst(t[1..], restricted);
      assert s[p + 1] == s[p + 1..][0];
    } else {
      assert t[1..] == [];
      EscapedNone(restricted);
    }
    rest := t[1..];
    if |t| > 1 && {t[0], t[1]} == {CR, LF} {
      assert t[1..][1..] == t[2..];
      assert s[p + 2..] == s[p + 1..][1..];
      rest := t[2..];
    }
  }

  lemma EscapedNone(restricted: bool)
    ensures EscapedText([], restricted) == []
  {
  }

  lemma {:induction false} PlainDecodes(s: Bytes, p: nat, out: Bytes, t: Bytes, restricted: bool)
    requires |out| <= p <= |s| && s[p..] == EscapedText(t, restricted) && t != [] && t[0] != CR && t[0] != LF
    ensures InPlace(s, TEXT, p, out) == out + Normal(t)
    decreases |t|, 0
  {
    hide NextPiece, EscapedByte, EscapedText, Matches, InPlace, Normal;
    var piece, rest := EscapedByte(t[0], restricted), EscapedText(t[1..], restricted);
    EscapedSplit(t, restricted);
    SuffixMatches(s, p, piece, rest);
    EscapedPiece(s, p, t[0], restricted);
    EscapedDecodes(s, p + |piece|, out + [t[0]], t[1..], restricted);
    Associates(out, [t[0]], Normal(t[1..]));
    CopyStep(s, TEXT, p, out);
    NormalStep(t);
  }

  lemma CopyStep(s: Bytes, f: Needs, p: nat, out: Bytes)
    requires |out| <= p < |s| && NextPiece(s, f, p).Copy?
    ensures var piece := NextPiece(s, f, p); InPlace(s, f, p, out) == InPlace(s, f, piece.next, out + piece.bytes)
  {
  }

  lemma NormalStep(t: Bytes)
    requires t != [] && t[0] != CR && t[0] != LF
    ensures Normal(t) == [t[0]] + Normal(t[1..])
  {
  }

  lemma EscapedSplit(t: Bytes, restricted: bool)
    requires t != []
    ensures EscapedText(t, restricted) == EscapedByte(t[0], restricted) + EscapedText(t[1..], restricted)
  {
  }

  lemma {:induction false} NormalIdentity(t: Bytes)
    requires CR !in t
    ensures Normal(t) == t
    decreases |t|
  {
    if t != [] {
      NormalIdentity(t[1..]);
      assert |t| > 1 ==> t[1] in t;
    }
  }

  /** For every byte string: what PrintString wrote, GetStr gives back with line ends
      normalised, and unchanged exactly when the string holds no carriage return. */
  lemma PrintedStringRead(t: Bytes, restricted: bool)
    ensures Decoded(EscapedText(t, restricted), TEXT) == Normal(t)
    ensures Decoded(EscapedText(t, restricted), TEXT) == t <==> CR !in t
  {
    var s := EscapedText(t, restricted);
    assert s[0..] == s;
    EscapedDecodes(s, 0, [], t, restricted);
    assert [] + Normal(t) == Normal(t);
    if CR !in t {
      NormalIdentity(t);
    }
  }

  /** The same for comments, CDATA sections, declarations and unknown markup, where only
      line ends are processed. */
  lemma {:induction false} VerbatimDecodes(s: Bytes, p: nat, out: Bytes)
    requires |out| <= p <= |s| && CR !in s
    ensures InPlace(s, VERBATIM, p, out) == out + s[p..]
    decreases |s| - p
  {
    if p == |s| {
      assert out + s[p..] == out;
    } else {
      assert p + 1 < |s| ==> s[p + 1] in s;
      VerbatimDecodes(s, p + 1, out + [s[p]]);
      assert out + [s[p]] + s[p + 1..] == out + s[p..];
    }
  }

  // ---- Character references are exact ----

  function Pow(base: nat, k: nat): nat { if k == 0 then 1 else base * Pow(base, k - 1) }

  /** The number that digits `i` to `j` write. */
  function DigitsValue(s: Bytes, i: nat, j: nat, hex: bool): nat
    requires i <= j <= |s| && forall k :: i <= k < j ==> Digit(s[k], hex).Some?
  {
    if i == j then 0 else DigitsValue(s, i, j - 1, hex) * Base(hex) + Digit(s[j - 1], hex).value
  }

  lemma {:induction false} LeadingDigit(s: Bytes, i: nat, j: nat, hex: bool)
    requires i < j <= |s| && forall k :: i <= k < j ==> Digit(s[k], hex).Some?
    ensures DigitsValue(s, i, j, hex)
            == Digit(s[i], hex).value * Pow(Base(hex), j - i - 1) + DigitsValue(s, i + 1, j, hex)
    ensures DigitsValue(s, i + 1, j, hex) <= DigitsValue(s, i, j, hex)
    decreases j
  {
    hide Digit, Base;
    if j == i + 1 {
      assert DigitsValue(s, i, i, hex) == 0 == DigitsValue(s, i + 1, j, hex);
      assert Pow(Base(hex), 0) == 1;
    } else {
      LeadingDigit(s, i, j - 1, hex);
      Shifted(Base(hex), Digit(s[i], hex).value, Pow(Base(hex), j - i - 2), DigitsValue(s, i + 1, j - 1, hex));
    }
  }

  lemma Shifted(base: nat, d: nat, w: nat, r: nat)
    ensures (d * w + r) * base == d * (base * w) + r * base
    ensures d * (base * w) >= 0
  {
  }

  /** Every digit, times the weight of its place, fits the 32 bits of `digitScaled`. */
  predicate DigitsFit(s: Bytes, i: nat, j: nat, hex: bool)
    requires i <= j <= |s| && forall k :: i <= k < j ==> Digit(s[k], hex).Some?
  {
    forall k :: i <= k < j ==> Digit(s[k], hex).value * Pow(Base(hex), j - 1 - k) < WIDTH
  }

  /** `n` is what the wrapping multiplier makes of digits `i` to `j`. */
  predicate ReadAs(s: Bytes, i: nat, j: nat, hex: bool, n: nat)
    requires i <= j <= |s| && forall k :: i <= k < j ==> Digit(s[k], hex).Some?
  {
    var u := DigitsValue(s, i, j, hex);
    n <= u && n % WIDTH == u % WIDTH && (n == u <==> DigitsFit(s, i, j, hex))
  }

  lemma {:induction false} ReadBackAs(s: Bytes, lo: nat, q: nat, end: nat, hex: bool, mult: nat, ucs: nat)
    requires lo < q <= end <= |s| && s[lo] == Mark(hex)
    requires forall k :: lo < k < end ==> Digit(s[k], hex).Some?
    requires mult == Pow(Base(hex), end - q) % WIDTH && ReadAs(s, q, end, hex, ucs)
    ensures var r := ReadBack(s, lo, q, hex, mult, ucs); r.Some? && ReadAs(s, lo + 1, end, hex, r.value)
    decreases q
  {
    hide Digit, Base, ReadAs;
    if lo + 1 < q {
      assert s[q - 1] != Mark(hex) by { DigitIsNoMark(s[q - 1], hex); }
      var w := Pow(Base(hex), end - q);
      OneMoreDigit(s, q - 1, end, hex, mult, ucs);
      WrapStep(w, Base(hex));
      assert Pow(Base(hex), end - (q - 1)) == Base(hex) * w;
      ReadBackAs(s, lo, q - 1, end, hex, mult * Base(hex) % WIDTH, ucs + mult * Digit(s[q - 1], hex).value % WIDTH);
    }
  }

  lemma OneMoreDigit(s: Bytes, i: nat, end: nat, hex: bool, mult: nat, ucs: nat)
    requires i < end <= |s| && forall k :: i <= k < end ==> Digit(s[k], hex).Some?
    requires mult == Pow(Base(hex), end - 1 - i) % WIDTH && ReadAs(s, i + 1, end, hex, ucs)
    ensures ReadAs(s, i, end, hex, ucs + mult * Digit(s[i], hex).value % WIDTH)
  {
    hide Digit, Base, Pow, DigitsValue;
    var d, w := Digit(s[i], hex).value, Pow(Base(hex), end - 1 - i);
    LeadingDigit(s, i, end, hex);
    WrapStep(w, d);
    SumsWrap(ucs, DigitsValue(s, i + 1, end, hex), d * w);
  }

  /** Two residues added up. */
  lemma SumsWrap(a: nat, u: nat, x: nat)
    requires a <= u && a % WIDTH == u % WIDTH
    ensures a + x % WIDTH <= u + x && (a + x % WIDTH) % WIDTH == (u + x) % WIDTH
    ensures a + x % WIDTH == u + x <==> a == u && x < WIDTH
  {
  }

  lemma DigitIsNoMark(c: Byte, hex: bool)
    requires Digit(c, hex).Some?
    ensures c != Mark(hex)
  {
  }

  lemma WrapStep(w: nat, base: nat)
    ensures (w % WIDTH) * base % WIDTH == base * w % WIDTH
  {
    var k := w / WIDTH;
    assert w == k * WIDTH + w % WIDTH;
    assert base * w == base * (w % WIDTH) + (base * k) * WIDTH;
    ModAdds(base * (w % WIDTH), base * k);
  }

  lemma {:induction false} ModAdds(a: nat, k: nat)
    ensures (a + k * WIDTH) % WIDTH == a % WIDTH
    decreases k
  {
    if k > 0 {
      ModAdds(a, k - 1);
      assert a + k * WIDTH == a + (k - 1) * WIDTH + WIDTH;
    }
  }

  /** A number that fits 32 bits fits digit by digit. */
  lemma {:induction false} SmallFits(s: Bytes, i: nat, j: nat, hex: bool)
    requires i <= j <= |s| && forall k :: i <= k < j ==> Digit(s[k], hex).Some?
    requires DigitsValue(s, i, j, hex) < WIDTH
    ensures DigitsFit(s, i, j, hex)
    decreases j - i
  {
    hide Digit, Base, Pow, DigitsValue;
    if i < j {
      LeadingDigit(s, i, j, hex);
      SmallFits(s, i + 1, j, hex);
    }
  }

  /** The number that a well-formed reference of any length is read as: it is congruent to the
      value modulo 2^32, and the value itself exactly if every digit, scaled, fits 32 bits; so
      it is exact below 2^32, with any number of leading zeros, and a Unicode scalar value
      becomes its UTF-8 encoding. */
  lemma ReferenceExact(s: Bytes, p: nat, hex: bool, end: nat)
    requires p + 1 < |s| && s[p + 1] == Ch('#') && (hex ==> p + 2 < |s| && s[p + 2] == Ch('x'))
    requires var lo := if hex then p + 2 else p + 1;
             && lo + 1 < end < |s| && s[end] == Ch(';')
             && (forall k :: lo < k < end ==> Digit(s[k], hex).Some?)
    ensures var lo := if hex then p + 2 else p + 1;
            var r, u := ReadBack(s, lo, end, hex, 1, 0), DigitsValue(s, lo + 1, end, hex);
            && r.Some? && CharacterRef(s, p) == Some(Copy(ToUtf8(r.value), end + 1))
            && r.value <= u && r.value % WIDTH == u % WIDTH
            && (r.value == u <==> DigitsFit(s, lo + 1, end, hex))
            && (u < WIDTH ==> r.value == u)
            && (Utf8.Scalar(u) ==> ToUtf8(r.value) == Utf8.Encode(u))
  {
    hide Semicolon, DigitsFit, ReadBack, ToUtf8, Utf8.Encode;
    var lo := if hex then p + 2 else p + 1;
    SemicolonAt(s, lo + 1, end, hex);
    assert Digit(s[lo + 1], hex).Some?;
    assert DigitsValue(s, end, end, hex) == 0 && Pow(Base(hex), 0) == 1;
    NoDigits(s, end, hex);
    ReadBackAs(s, lo, end, end, hex, 1, 0);
    var u := DigitsValue(s, lo + 1, end, hex);
    if u < WIDTH {
      SmallFits(s, lo + 1, end, hex);
      ScalarEncoded(u);
    }
  }

  lemma ScalarEncoded(u: nat)
    ensures Utf8.Scalar(u) ==> ToUtf8(u) == Utf8.Encode(u)
  {
  }

  lemma NoDigits(s: Bytes, i: nat, hex: bool)
    requires i <= |s|
    ensures DigitsFit(s, i, i, hex)
  {
  }

  /** The reference `&#x100000041;`. */
  const WRAPPING: Bytes :=
    [Ch('&'), Ch('#'), Ch('x'), Ch('1'), Ch('0'), Ch('0'), Ch('0'), Ch('0'), Ch('0'), Ch('0'), Ch('4'), Ch('1'), Ch(';')]

  /** It is read as the letter A. */
  lemma ReferenceWraps()
    ensures CharacterRef(WRAPPING, 0) == Some(Copy([Ch('A')], |WRAPPING|))
  {
    hide CharacterRef, ReadBack, DigitsValue, Pow, Utf8.Encode;
    var s := WRAPPING;
    WrappingValue();
    ReferenceExact(s, 0, true, 12);
    assert Digit(s[3], true).value * Pow(Base(true), 12 - 1 - 3) >= WIDTH;
    var n := ReadBack(s, 2, 12, true, 1, 0).value;
    assert n == 0x41;
  }

  lemma WrappingValue()
    ensures (forall k :: 2 < k < 12 ==> Digit(WRAPPING[k], true).Some?)
    ensures DigitsValue(WRAPPING, 3, 12, true) == WIDTH + 0x41 && Pow(16, 8) == WIDTH
  {
    var s := WRAPPING;
    assert DigitsValue(s, 3, 4, true) == 1;
    assert DigitsValue(s, 3, 6, true) == 0x100;
    assert DigitsValue(s, 3, 8, true) == 0x1_0000;
    assert DigitsValue(s, 3, 10, true) == 0x100_0000;
    assert DigitsValue(s, 3, 12, true) == 0x1_0000_0041;
    assert Pow(16, 2) == 256;
    assert Pow(16, 4) == 0x1_0000;
    assert Pow(16, 6) == 0x100_0000;
  }

  lemma {:induction false} SemicolonAt(s: Bytes, i: nat, end: nat, hex: bool)
    requires i <= end < |s| && s[end] == Ch(';') && forall k :: i <= k < end ==> Digit(s[k], hex).Some?
    ensures Semicolon(s, i) == Some(end)
    decreases end - i
  {
    if i < end {
      assert Digit(s[i], hex).Some?;
      SemicolonAt(s, i + 1, end, hex);
    }
  }

  // ---- White space ----

  /** Bytes from 0x80 on never count as white space. */
  predicate IsSpace(c: Byte) { c == 32 || 9 <= c <= 13 }

  function SkipSpace(s: Bytes, i: nat): (j: nat)
    requires i <= |s|
    ensures i <= j <= |s| && !IsSpace(Peek(s, j)) && forall k :: i <= k < j ==> IsSpace(s[k])
    decreases |s| - i
  {
    if IsSpace(Peek(s, i)) then SkipSpace(s, i + 1) else i
  }

  /** What one round of the loop of CollapseWhitespace writes, and where it goes on. */
  function NextInk(s: Bytes, p: nat): (r: Piece)
    requires p < |s|
    ensures r.Copy? && p < r.next <= |s| && |r.bytes| <= r.next - p
  {
    if !IsSpace(s[p]) then Copy([s[p]], p + 1)
    else
      var j := SkipSpace(s, p);
      if Peek(s, j) == 0 then Copy([], j) else Copy([Ch(' '), s[j]], j + 1)
  }

  function Squeezed(s: Bytes, p: nat): (r: Bytes)
    requires p <= |s|
    ensures |r| <= |s| - p
    decreases |s| - p
  {
    if Peek(s, p) == 0 then [] else NextInk(s, p).bytes + Squeezed(s, NextInk(s, p).next)
  }

  function Collapsed(s: Bytes): Bytes { Squeezed(s, SkipSpace(s, 0)) }

  function WordEnd(s: Bytes, i: nat): (j: nat)
    requires i <= |s|
    ensures i <= j <= |s| && (Peek(s, j) == 0 || IsSpace(s[j]))
    ensures Peek(s, i) != 0 && !IsSpace(s[i]) ==> i < j
    decreases |s| - i
  {
    if Peek(s, i) == 0 || IsSpace(s[i]) then i else WordEnd(s, i + 1)
  }

  /** The words of a C string. */
  function Words(s: Bytes, i: nat): seq<Bytes>
    requires i <= |s|
    decreases |s| - i
  {
    var j := SkipSpace(s, i);
    if Peek(s, j) == 0 then [] else [s[j..WordEnd(s, j)]] + Words(s, WordEnd(s, j))
  }

  function JoinedAfter(words: seq<Bytes>): Bytes
  {
    if words == [] then [] else [Ch(' ')] + words[0] + JoinedAfter(words[1..])
  }

  /** A single space between words, none before or after. */
  function Joined(words: seq<Bytes>): Bytes
  {
    if words == [] then [] else words[0] + JoinedAfter(words[1..])
  }

  lemma {:induction false} SqueezedWord(s: Bytes, p: nat)
    requires p <= |s|
    ensures Squeezed(s, p) == s[p..WordEnd(s, p)] + JoinedAfter(Words(s, WordEnd(s, p)))
    decreases |s| - p, 1
  {
    hide IsSpace, SkipSpace;
    if Peek(s, p) == 0 {
      assert s[p..p] == [];
      WordsFrom(s, p);
    } else if !IsSpace(s[p]) {
      SqueezedWord(s, p + 1);
      Consed(s, p, WordEnd(s, p), JoinedAfter(Words(s, WordEnd(s, p))));
    } else {
      SqueezedGap(s, p);
    }
  }

  lemma Consed(s: Bytes, i: nat, e: nat, rest: Bytes)
    requires i < e <= |s|
    ensures [s[i]] + (s[i + 1..e] + rest) == s[i..e] + rest
    ensures [Ch(' '), s[i]] + (s[i + 1..e] + rest) == [Ch(' ')] + s[i..e] + rest
  {
    assert s[i..e] == [s[i]] + s[i + 1..e];
  }

  lemma {:induction false} SqueezedGap(s: Bytes, p: nat)
    requires p < |s| && s[p] != 0 && IsSpace(s[p])
    ensures Squeezed(s, p) == s[p..WordEnd(s, p)] + JoinedAfter(Words(s, WordEnd(s, p)))
    decreases |s| - p, 0
  {
    hide IsSpace, SkipSpace, JoinedAfter, Words, Squeezed;
    WordsFrom(s, p);
    SqueezedFrom(s, p);
    var j := SkipSpace(s, p);
    assert WordEnd(s, p) == p && s[p..p] == [];
    if Peek(s, j) != 0 {
      var e := WordEnd(s, j);
      SqueezedWord(s, j + 1);
      Consed(s, j, e, JoinedAfter(Words(s, e)));
      JoinedStep(s[j..e], Words(s, e));
    } else {
      JoinedNone();
    }
  }

  lemma WordsFrom(s: Bytes, p: nat)
    requires p <= |s|
    ensures var j := SkipSpace(s, p);
            Words(s, p) == if Peek(s, j) == 0 then [] else [s[j..WordEnd(s, j)]] + Words(s, WordEnd(s, j))
    ensures Peek(s, p) == 0 ==> SkipSpace(s, p) == p
  {
  }

  lemma SqueezedFrom(s: Bytes, p: nat)
    requires p < |s| && s[p] != 0 && IsSpace(s[p])
    ensures var j := SkipSpace(s, p);
            && j > p
            && Squeezed(s, p) == if Peek(s, j) == 0 then [] else [Ch(' '), s[j]] + Squeezed(s, j + 1)
  {
    var j := SkipSpace(s, p);
    if Peek(s, j) == 0 {
      assert Squeezed(s, j) == [];
    }
  }

  lemma JoinedNone()
    ensures JoinedAfter([]) == []
  {
  }

  lemma JoinedStep(word: Bytes, words: seq<Bytes>)
    ensures JoinedAfter([word] + words) == [Ch(' ')] + word + JoinedAfter(words)
  {
    assert ([word] + words)[1..] == words;
  }

  /** Collapsing yields the words of the string, joined by single spaces. */
  lemma CollapsedIsJoined(s: Bytes)
    ensures Collapsed(s) == Joined(Words(s, 0))
  {
    var i := SkipSpace(s, 0);
    SqueezedWord(s, i);
    if Peek(s, i) != 0 {
      assert Words(s, 0)[1..] == Words(s, WordEnd(s, i));
    }
  }
}
