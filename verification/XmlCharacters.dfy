/**
 What the characters of XML text and of attribute values stand for: entities, character
 references in both bases, line ends and everything else.
 */
module XmlCharacters {
  import opened ByteStrings
  import Utf8
  import opened XmlText

  // ---- Spellings of characters ----

  datatype Glyph =
    | Run(bytes: Bytes)                       // no ampersand; line ends are normalised
    | Named(c: Byte)                          // one of the five entities
    | Reference(hex: bool, digits: Bytes)     // of a Unicode scalar value

  function EntityText(c: Byte): Bytes
  {
    if c == 0x22 then [0x26, 0x71, 0x75, 0x6F, 0x74, 0x3B]          // &quot;
    else if c == 0x26 then [0x26, 0x61, 0x6D, 0x70, 0x3B]           // &amp;
    else if c == 0x27 then [0x26, 0x61, 0x70, 0x6F, 0x73, 0x3B]     // &apos;
    else if c == 0x3C then [0x26, 0x6C, 0x74, 0x3B]                 // &lt;
    else if c == 0x3E then [0x26, 0x67, 0x74, 0x3B]                 // &gt;
    else []
  }

  function DigitMeaning(c: Byte, hex: bool): Option<nat>
  {
    if 0x30 <= c <= 0x39 then Some(c - 0x30)
    else if hex && 0x41 <= c <= 0x46 then Some(c - 0x41 + 10)
    else if hex && 0x61 <= c <= 0x66 then Some(c - 0x61 + 10)
    else None
  }

  predicate ValidDigits(d: Bytes, hex: bool) { forall k :: 0 <= k < |d| ==> DigitMeaning(d[k], hex).Some? }

  function RefValue(d: Bytes, hex: bool): nat
    requires ValidDigits(d, hex)
  {
    if d == [] then 0
    else RefValue(d[..|d| - 1], hex) * (if hex then 16 else 10) + DigitMeaning(d[|d| - 1], hex).value
  }

  predicate ValidGlyph(m: Glyph)
  {
    match m
    case Run(bytes) => bytes != [] && 0x26 !in bytes
    case Named(c) => EntityText(c) != []
    case Reference(hex, d) => d != [] && ValidDigits(d, hex) && Utf8.Scalar(RefValue(d, hex))
  }

  /** Runs are as long as they can be. */
  predicate ValidGlyphs(ms: seq<Glyph>)
  {
    ms != [] ==> ValidGlyph(ms[0]) && (ms[0].Run? && |ms| > 1 ==> !ms[1].Run?) && ValidGlyphs(ms[1..])
  }

  function GlyphText(m: Glyph): Bytes
  {
    match m
    case Run(bytes) => bytes
    case Named(c) => EntityText(c)
    case Reference(hex, d) => [0x26, 0x23] + ((if hex then [0x78] else []) + (d + [0x3B]))
  }

  function GlyphsText(ms: seq<Glyph>): Bytes
  {
    if ms == [] then [] else GlyphText(ms[0]) + GlyphsText(ms[1..])
  }

  function GlyphMeaning(m: Glyph): Bytes
    requires ValidGlyph(m)
  {
    match m
    case Run(bytes) => Normal(bytes)
    case Named(c) => [c]
    case Reference(hex, d) => Utf8.Encode(RefValue(d, hex))
  }

  function GlyphsMeaning(ms: seq<Glyph>): Bytes
    requires ValidGlyphs(ms)
  {
    if ms == [] then [] else GlyphMeaning(ms[0]) + GlyphsMeaning(ms[1..])
  }

  // ---- They are decoded as what they stand for ----

  /** The first round of the loop on a run: one byte, or a line end of one or two. */
  lemma RunPiece(s: Bytes, f: Needs, p: nat, run: Bytes) returns (n: nat)
    requires run != [] && f.newlines && Matches(s, p, run) && (f.entities ==> 0x26 !in run)
    requires Peek(s, p + |run|) != CR && Peek(s, p + |run|) != LF
    ensures 0 < n <= |run| && p + n <= |s| && Matches(s, p + n, run[n..])
    ensures NextPiece(s, f, p).Copy? && NextPiece(s, f, p).next == p + n
    ensures |NextPiece(s, f, p).bytes| <= n && Normal(run) == NextPiece(s, f, p).bytes + Normal(run[n..])
  {
    hide CharacterRef, FindEntity;
    First(s, p, run);
    assert run[0] in run;
    if |run| > 1 {
      assert s[p + 1] == run[1];
    }
    n := NextPiece(s, f, p).next - p;
    assert run == run[..n] + run[n..];
    MatchesSplit(s, p, run[..n], run[n..]);
  }

  lemma {:induction false} RunDecoded(s: Bytes, f: Needs, p: nat, out: Bytes, run: Bytes)
    requires |out| <= p && f.newlines && Matches(s, p, run) && (f.entities ==> 0x26 !in run)
    requires run != [] ==> Peek(s, p + |run|) != CR && Peek(s, p + |run|) != LF
    ensures |out + Normal(run)| <= p + |run| <= |s|
    ensures InPlace(s, f, p, out) == InPlace(s, f, p + |run|, out + Normal(run))
    decreases |run|
  {
    hide NextPiece, InPlace, Normal, Matches;
    if run == [] {
      NothingNormal(s, p);
      assert out + [] == out;
    } else {
      var n := RunPiece(s, f, p, run);
      var piece := NextPiece(s, f, p).bytes;
      CopyStep(s, f, p, out);
      RunDecoded(s, f, p + n, out + piece, run[n..]);
      Associates(out, piece, Normal(run[n..]));
    }
  }

  lemma NothingNormal(s: Bytes, p: nat)
    requires Matches(s, p, [])
    ensures Normal([]) == [] && p <= |s|
  {
  }

  lemma NamedDecoded(s: Bytes, p: nat, c: Byte)
    requires EntityText(c) != [] && Matches(s, p, EntityText(c))
    ensures p < |s| && NextPiece(s, TEXT, p) == Copy([c], p + |EntityText(c)|)
  {
    hide Matches, NextPiece;
    assert EntityText(c) == EscapedByte(c, false);
    First(s, p, EntityText(c));
    EscapedPiece(s, p, c, false);
  }

  lemma {:induction false} DigitsAre(s: Bytes, i: nat, d: Bytes, hex: bool)
    requires ValidDigits(d, hex) && Matches(s, i, d)
    ensures (forall k :: i <= k < i + |d| ==> Digit(s[k], hex).Some?) && DigitsValue(s, i, i + |d|, hex) == RefValue(d, hex)
    decreases |d|
  {
    forall k | i <= k < i + |d|
      ensures Digit(s[k], hex).Some?
    {
      assert s[i + (k - i)] == d[k - i];
    }
    if d != [] {
      var n := |d| - 1;
      DigitsAre(s, i, d[..n], hex);
      assert s[i + n] == d[n];
    }
  }

  /** Where the parts of a reference stand. */
  lemma ReferencePlaced(s: Bytes, p: nat, hex: bool, d: Bytes)
    requires ValidGlyph(Reference(hex, d)) && Matches(s, p, GlyphText(Reference(hex, d)))
    ensures var at := if hex then p + 3 else p + 2;
            && p + 2 < |s| && s[p] == 0x26 && s[p + 1] == 0x23 && (hex <==> s[p + 2] == 0x78)
            && Matches(s, at, d) && at + |d| < |s| && s[at + |d|] == 0x3B
            && at + |d| + 1 == p + |GlyphText(Reference(hex, d))|
  {
    hide Matches, RefValue;
    var head, x := [0x26, 0x23], if hex then [0x78] else [];
    var at := p + 2 + |x|;
    MatchesSplit(s, p, head, x + (d + [0x3B]));
    MatchesSplit(s, p + 2, x, d + [0x3B]);
    MatchesSplit(s, at, d, [0x3B]);
    HeadIs(s, p);
    if hex {
      First(s, p + 2, x);
    }
    OneMatches(s, at + |d|, 0x3B);
    First(s, at, d);
  }

  lemma HeadIs(s: Bytes, p: nat)
    requires Matches(s, p, [0x26, 0x23])
    ensures p + 1 < |s| && s[p] == 0x26 && s[p + 1] == 0x23
  {
    var head := [0x26, 0x23];
    assert s[p + 0] == head[0] && s[p + 1] == head[1];
  }

  lemma ReferenceDecoded(s: Bytes, p: nat, hex: bool, d: Bytes)
    requires ValidGlyph(Reference(hex, d)) && Matches(s, p, GlyphText(Reference(hex, d)))
    ensures p < |s|
    ensures NextPiece(s, TEXT, p) == Copy(Utf8.Encode(RefValue(d, hex)), p + |GlyphText(Reference(hex, d))|)
  {
    hide CharacterRef, FindEntity, RefValue, DigitsValue, ToUtf8, Utf8.Encode, Matches, GlyphText, ReadBack;
    var at := if hex then p + 3 else p + 2;
    ReferencePlaced(s, p, hex, d);
    DigitsAre(s, at, d, hex);
    ReferenceExact(s, p, hex, at + |d|);
  }

  /** Text made of runs, entities and references decodes to what they stand for. */
  lemma {:induction false} GlyphsDecoded(s: Bytes, p: nat, out: Bytes, ms: seq<Glyph>)
    requires ValidGlyphs(ms) && |out| <= p && Matches(s, p, GlyphsText(ms)) && p + |GlyphsText(ms)| == |s|
    ensures InPlace(s, TEXT, p, out) == out + GlyphsMeaning(ms)
    decreases |ms|
  {
    hide Matches, NextPiece, GlyphText, GlyphMeaning, ValidGlyph, InPlace;
    if ms == [] {
      AtTheEnd(s, out);
      assert out + [] == out;
    } else {
      var m, rest := ms[0], GlyphsText(ms[1..]);
      var next := p + |GlyphText(m)|;
      MatchesSplit(s, p, GlyphText(m), rest);
      GlyphStep(s, p, out, m, if |ms| > 1 then Some(ms[1]) else None, rest);
      GlyphsDecoded(s, next, out + GlyphMeaning(m), ms[1..]);
      Associates(out, GlyphMeaning(m), GlyphsMeaning(ms[1..]));
    }
  }

  lemma AtTheEnd(s: Bytes, out: Bytes)
    requires |out| <= |s|
    ensures InPlace(s, TEXT, |s|, out) == out
  {
  }

  lemma GlyphStep(s: Bytes, p: nat, out: Bytes, m: Glyph, after: Option<Glyph>, rest: Bytes)
    requires ValidGlyph(m) && |out| <= p && Matches(s, p, GlyphText(m)) && Matches(s, p + |GlyphText(m)|, rest)
    requires p + |GlyphText(m)| + |rest| == |s|
    requires if after.None? then rest == []
             else ValidGlyph(after.value) && GlyphText(after.value) <= rest && (m.Run? ==> !after.value.Run?)
    ensures |out + GlyphMeaning(m)| <= p + |GlyphText(m)| <= |s|
    ensures InPlace(s, TEXT, p, out) == InPlace(s, TEXT, p + |GlyphText(m)|, out + GlyphMeaning(m))
  {
    hide InPlace, NextPiece, Matches, Normal, RefValue, EntityText;
    match m
    case Run(bytes) =>
      if rest != [] {
        First(s, p + |bytes|, rest);
        GlyphBegins(after.value);
      }
      RunDecoded(s, TEXT, p, out, bytes);
    case Named(c) =>
      NamedDecoded(s, p, c);
      CopyStep(s, TEXT, p, out);
    case Reference(hex, d) =>
      ReferenceDecoded(s, p, hex, d);
      CopyStep(s, TEXT, p, out);
  }

  lemma GlyphBegins(m: Glyph)
    requires ValidGlyph(m) && !m.Run?
    ensures GlyphText(m) != [] && GlyphText(m)[0] == 0x26
  {
  }

  /** The whole value. */
  lemma CharactersDecoded(ms: seq<Glyph>)
    requires ValidGlyphs(ms)
    ensures Decoded(GlyphsText(ms), TEXT) == GlyphsMeaning(ms)
  {
    hide InPlace, GlyphsText, GlyphsMeaning;
    Whole(GlyphsText(ms));
    GlyphsDecoded(GlyphsText(ms), 0, [], ms);
    assert [] + GlyphsMeaning(ms) == GlyphsMeaning(ms);
  }

  /** Where entities are not processed, only the line ends change. */
  lemma VerbatimIsNormal(s: Bytes)
    ensures Decoded(s, VERBATIM) == Normal(s)
  {
    hide NextPiece;
    Whole(s);
    RunDecoded(s, VERBATIM, 0, [], s);
    assert [] + Normal(s) == Normal(s);
  }

  // ---- References that are none ----

  /** The last mark before `q`. */
  function LastMark(s: Bytes, lo: nat, q: nat, hex: bool): (m: nat)
    requires lo < q <= |s| && s[lo] == Mark(hex)
    ensures lo <= m < q && s[m] == Mark(hex) && forall k :: m < k < q ==> s[k] != Mark(hex)
    decreases q
  {
    if s[q - 1] == Mark(hex) then q - 1 else LastMark(s, lo, q - 1, hex)
  }

  lemma {:induction false} ReadBackIff(s: Bytes, lo: nat, q: nat, hex: bool, mult: nat, ucs: nat)
    requires lo < q <= |s| && s[lo] == Mark(hex)
    ensures ReadBack(s, lo, q, hex, mult, ucs).Some?
            <==> forall k :: LastMark(s, lo, q, hex) < k < q ==> DigitMeaning(s[k], hex).Some?
    decreases q
  {
    if s[q - 1] != Mark(hex) && DigitMeaning(s[q - 1], hex).Some? {
      var d := Digit(s[q - 1], hex).value;
      ReadBackIff(s, lo, q - 1, hex, mult * Base(hex) % WIDTH, ucs + mult * d % WIDTH);
    }
  }

  /** An ampersand and a `#` that start no reference stay as they are: no semicolon follows, or
      something before it, after the last `#` or `x`, is not a digit. */
  lemma NoReference(s: Bytes, p: nat)
    requires p + 2 < |s| && s[p] == 0x26 && s[p + 1] == 0x23 && s[p + 2] != 0
    requires var hex := s[p + 2] == 0x78;
             var lo := if hex then p + 2 else p + 1;
             match Semicolon(s, lo + 1)
             case None => true
             case Some(end) => exists k :: LastMark(s, lo, end, hex) < k < end && DigitMeaning(s[k], hex).None?
    ensures NextPiece(s, TEXT, p) == Copy([0x26], p + 1)
  {
    hide ReadBack, LastMark, Semicolon, FindEntity, ToUtf8, DigitMeaning, NextPiece;
    var hex := s[p + 2] == 0x78;
    var lo := if hex then p + 2 else p + 1;
    var semicolon := Semicolon(s, lo + 1);
    if semicolon.Some? {
      ReadBackIff(s, lo, semicolon.value, hex, 1, 0);
    }
    assert CharacterRef(s, p) == None;
    AmpersandStays(s, p);
  }

  lemma AmpersandStays(s: Bytes, p: nat)
    requires p + 1 < |s| && s[p] == 0x26 && s[p + 1] == 0x23 && CharacterRef(s, p) == None
    ensures NextPiece(s, TEXT, p) == Copy([0x26], p + 1)
  {
    hide CharacterRef, FindEntity;
  }
}
