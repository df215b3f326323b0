/**
 The language of JSON Pointers, after sections 3 and 6 of RFC 6901: in both forms exactly the
 spellings of lists of names are accepted, and each is read as its names.
 */
module PointerLanguage {
  import opened ByteStrings
  import opened Utf8
  import JsonSpelling
  import opened JsonPointer
  import opened PointerText

  // ---- Spellings ----

  datatype Atom =
    | Raw(c: Byte)
    | Escape(slash: bool)                           // ~1 or ~0
    | Encoded(cp: nat, hex: Bytes)                  // the UTF-8 of a character, as %XX each
    | EncodedEscape(hex: Bytes, slash: bool)        // the same with an encoded tilde

  /** Digits in pairs. */
  predicate HexPairs(hex: Bytes) { |hex| % 2 == 0 && forall k :: 0 <= k < |hex| ==> JsonSpelling.HexMeaning(hex[k]).Some? }

  function HexBytes(hex: Bytes): Bytes
    requires HexPairs(hex)
  {
    if hex == [] then []
    else [JsonSpelling.HexMeaning(hex[0]).value * 16 + JsonSpelling.HexMeaning(hex[1]).value] + HexBytes(hex[2..])
  }

  function PercentText(hex: Bytes): Bytes
    requires |hex| % 2 == 0
  {
    if hex == [] then [] else [0x25, hex[0], hex[1]] + PercentText(hex[2..])
  }

  /** Characters that a URI fragment may hold as they are. */
  predicate Unreserved(c: Byte)
  {
    0x30 <= c <= 0x39 || 0x41 <= c <= 0x5A || 0x61 <= c <= 0x7A || c == 0x2D || c == 0x2E || c == 0x5F
  }

  predicate ValidAtom(a: Atom, uri: bool)
  {
    match a
    case Raw(c) => c != 0x2F && c != 0x7E && (uri ==> Unreserved(c))
    case Escape(_) => true
    case Encoded(cp, hex) => uri && Scalar(cp) && cp != 0x7E && HexPairs(hex) && HexBytes(hex) == Encode(cp)
    case EncodedEscape(hex, _) => uri && HexPairs(hex) && HexBytes(hex) == [0x7E]
  }

  function Bit(slash: bool): Byte { if slash then 0x31 else 0x30 }

  function Escaped(slash: bool): Byte { if slash then 0x2F else 0x7E }

  function AtomText(a: Atom): Bytes
  {
    match a
    case Raw(c) => [c]
    case Escape(slash) => [0x7E, Bit(slash)]
    case Encoded(_, hex) => if |hex| % 2 == 0 then PercentText(hex) else []
    case EncodedEscape(hex, slash) => if |hex| % 2 == 0 then PercentText(hex) + [Bit(slash)] else []
  }

  function AtomBytes(a: Atom): Bytes
  {
    match a
    case Raw(c) => [c]
    case Escape(slash) => [Escaped(slash)]
    case Encoded(cp, _) => if cp <= 0x10FFFF then Encode(cp) else []
    case EncodedEscape(_, slash) => [Escaped(slash)]
  }

  predicate ValidAtoms(atoms: seq<Atom>, uri: bool) { forall a <- atoms :: ValidAtom(a, uri) }

  function AtomsText(atoms: seq<Atom>): Bytes
  {
    if atoms == [] then [] else AtomText(atoms[0]) + AtomsText(atoms[1..])
  }

  function AtomsBytes(atoms: seq<Atom>): Bytes
  {
    if atoms == [] then [] else AtomBytes(atoms[0]) + AtomsBytes(atoms[1..])
  }

  /** Each name after a solidus. */
  function NamesText(names: seq<seq<Atom>>): Bytes
  {
    if names == [] then [] else [0x2F] + (AtomsText(names[0]) + NamesText(names[1..]))
  }

  function NamesBytes(names: seq<seq<Atom>>): seq<Bytes>
  {
    if names == [] then [] else [AtomsBytes(names[0])] + NamesBytes(names[1..])
  }

  predicate ValidNames(names: seq<seq<Atom>>, uri: bool) { forall n <- names :: ValidAtoms(n, uri) }

  function PointerSpelt(names: seq<seq<Atom>>, uri: bool): Bytes { (if uri then [0x23] else []) + NamesText(names) }

  // ---- Every spelling is read ----

  lemma {:induction false} TripletsAre(s: Bytes, i: nat, hex: Bytes)
    requires HexPairs(hex) && Matches(s, i, PercentText(hex))
    ensures Triplets(s, i) == HexBytes(hex) + Triplets(s, i + 3 * |HexBytes(hex)|) && |PercentText(hex)| == 3 * |HexBytes(hex)|
    decreases |hex|
  {
    hide HexPairs, Triplets, Matches;
    if hex == [] {
      assert [] + Triplets(s, i) == Triplets(s, i);
    } else {
      FirstPair(hex);
      MatchesSplit(s, i, [0x25, hex[0], hex[1]], PercentText(hex[2..]));
      OneTriplet(s, i, hex[0], hex[1]);
      TripletsAre(s, i + 3, hex[2..]);
      Associates(HexBytes(hex)[..1], HexBytes(hex[2..]), Triplets(s, i + 3 * |HexBytes(hex)|));
    }
  }

  lemma FirstPair(hex: Bytes)
    requires HexPairs(hex) && hex != []
    ensures |hex| >= 2 && HexPairs(hex[2..])
    ensures JsonSpelling.HexMeaning(hex[0]).Some? && JsonSpelling.HexMeaning(hex[1]).Some?
  {
  }

  lemma OneTriplet(s: Bytes, i: nat, a: Byte, b: Byte)
    requires Matches(s, i, [0x25, a, b])
    requires JsonSpelling.HexMeaning(a).Some? && JsonSpelling.HexMeaning(b).Some?
    ensures Triplets(s, i)
            == [JsonSpelling.HexMeaning(a).value * 16 + JsonSpelling.HexMeaning(b).value] + Triplets(s, i + 3)
  {
    hide HexDigit, JsonSpelling.HexMeaning;
    var text := [0x25, a, b];
    assert s[i + 0] == text[0] && s[i + 1] == text[1] && s[i + 2] == text[2];
    HexIsHex(a);
    HexIsHex(b);
  }

  lemma HexIsHex(c: Byte)
    ensures HexDigit(c) == JsonSpelling.HexMeaning(c)
  {
  }

  /** An encoded character, followed by anything. */
  lemma EncodedRead(s: Bytes, i: nat, cp: nat, hex: Bytes)
    requires Scalar(cp) && HexPairs(hex) && HexBytes(hex) == Encode(cp) && Matches(s, i, PercentText(hex))
    ensures i < |s| && s[i] == 0x25 && |PercentText(hex)| == 3 * |Encode(cp)|
    ensures ReadPiece(s, i, true) == if |Encode(cp)| > 1 then Piece(Encode(cp), i + 3 * |Encode(cp)|)
                                     else Unescape(s, cp, i + 3)
  {
    hide Triplets, Validate, Decode, HexBytes;
    var e, t := Encode(cp), Triplets(s, i);
    TripletsAre(s, i, hex);
    EncodedBegins(s, i, hex);
    DecodeEncoded(t, 0, cp);
    ValidateLikeDecode(t, 0);
    assert t[0..|e|] == e;
  }

  lemma EncodedBegins(s: Bytes, i: nat, hex: Bytes)
    requires HexPairs(hex) && HexBytes(hex) != [] && Matches(s, i, PercentText(hex))
    ensures i < |s| && s[i] == 0x25
  {
    First(s, i, PercentText(hex));
  }

  lemma UnreservedIs(c: Byte)
    ensures NeedPercentEncode(c) <==> !Unreserved(c) && c != 0x7E
  {
  }

  lemma AtomRead(s: Bytes, i: nat, uri: bool, a: Atom)
    requires ValidAtom(a, uri) && Matches(s, i, AtomText(a))
    ensures i < |s| && s[i] != 0x2F && ReadPiece(s, i, uri) == Piece(AtomBytes(a), i + |AtomText(a)|)
  {
    hide Triplets, Validate, HexBytes, HexPairs, Encode, PercentText;
    match a
    case Raw(c) =>
      OneMatches(s, i, c);
      UnreservedIs(c);
    case Escape(slash) =>
      var text := [0x7E, Bit(slash)];
      assert s[i + 0] == text[0] && s[i + 1] == text[1];
    case Encoded(cp, hex) =>
      EvenPairs(hex);
      EncodedRead(s, i, cp, hex);
      OneByte(cp);
    case EncodedEscape(hex, slash) =>
      EvenPairs(hex);
      OneByte(0x7E);
      MatchesSplit(s, i, PercentText(hex), [Bit(slash)]);
      EncodedRead(s, i, 0x7E, hex);
      OneMatches(s, i + 3, Bit(slash));
  }

  lemma OneByte(cp: nat)
    requires Scalar(cp)
    ensures Encode(cp) != [] && (|Encode(cp)| == 1 ==> Encode(cp) == [cp]) && Encode(0x7E) == [0x7E]
  {
  }

  lemma {:induction false} AtomsRead(s: Bytes, i: nat, uri: bool, atoms: seq<Atom>)
    requires ValidAtoms(atoms, uri) && Matches(s, i, AtomsText(atoms))
    requires var end := i + |AtomsText(atoms)|; end == |s| || Peek(s, end) == 0x2F
    ensures i <= |s| && ReadName(s, i, uri) == Piece(AtomsBytes(atoms), i + |AtomsText(atoms)|)
    decreases |atoms|
  {
    hide AtomText, AtomBytes, ValidAtom, ReadPiece, Matches;
    if atoms != [] {
      var first := AtomText(atoms[0]);
      assert atoms[0] in atoms && forall a <- atoms[1..] :: a in atoms;
      MatchesSplit(s, i, first, AtomsText(atoms[1..]));
      AtomRead(s, i, uri, atoms[0]);
      AtomsRead(s, i + |first|, uri, atoms[1..]);
    } else {
      Inside(s, i, []);
    }
  }

  lemma Inside(s: Bytes, i: nat, w: Bytes)
    requires Matches(s, i, w)
    ensures i + |w| <= |s|
  {
  }

  lemma {:induction false} NamesAreRead(s: Bytes, i: nat, uri: bool, names: seq<seq<Atom>>)
    requires ValidNames(names, uri) && Matches(s, i, NamesText(names)) && i + |NamesText(names)| == |s|
    ensures (i < |s| ==> s[i] == 0x2F) && ReadNames(s, i, uri) == Some(NamesBytes(names))
    decreases |names|
  {
    hide AtomsText, AtomsBytes, ValidAtoms, ReadName, Matches;
    if names != [] {
      var first, rest := AtomsText(names[0]), NamesText(names[1..]);
      assert names[0] in names && forall n <- names[1..] :: n in names;
      MatchesSplit(s, i, [0x2F], first + rest);
      OneMatches(s, i, 0x2F);
      MatchesSplit(s, i + 1, first, rest);
      NamesAreRead(s, i + 1 + |first|, uri, names[1..]);
      AtomsRead(s, i + 1, uri, names[0]);
    }
  }

  // ---- Nothing else is read ----

  lemma {:induction false} TripletsFound(s: Bytes, i: nat, n: nat) returns (hex: Bytes)
    requires i <= |s| && n <= |Triplets(s, i)|
    ensures HexPairs(hex) && HexBytes(hex) == Triplets(s, i)[..n] && Matches(s, i, PercentText(hex)) && |PercentText(hex)| == 3 * n
    decreases n
  {
    hide Matches;
    if n == 0 {
      hex := [];
      SliceMatches(s, i, i);
      assert s[i..i] == [];
    } else {
      var rest := TripletsFound(s, i + 3, n - 1);
      HexIsHex(s[i + 1]);
      HexIsHex(s[i + 2]);
      hex := [s[i + 1], s[i + 2]] + rest;
      assert hex[2..] == rest;
      SliceMatches(s, i, i + 3);
      assert s[i..i + 3] == [0x25, hex[0], hex[1]];
      MatchesSplit(s, i, [0x25, hex[0], hex[1]], PercentText(rest));
      assert Triplets(s, i)[..n] == [Triplets(s, i)[0]] + Triplets(s, i + 3)[..n - 1];
    }
  }

  lemma EncodedFound(s: Bytes, i: nat) returns (cp: nat, hex: Bytes)
    requires i < |s| && s[i] == 0x25 && ReadPiece(s, i, true).Piece?
    ensures Scalar(cp) && HexPairs(hex) && HexBytes(hex) == Encode(cp) && Matches(s, i, PercentText(hex))
  {
    hide Triplets, Validate, Decode, HexBytes, Encode, PercentText, Matches;
    var t := Triplets(s, i);
    ValidateLikeDecode(t, 0);
    DecodeAdvances(t, 0);
    EncodeDecoded(t, 0);
    var d := Decode(t, 0);
    cp := d.cp;
    hex := TripletsFound(s, i, d.next);
    assert t[0..d.next] == t[..d.next];
  }

  lemma EscapeFound(s: Bytes, c: Byte, i: nat) returns (slash: bool)
    requires i <= |s| && c == 0x7E && Unescape(s, c, i).Piece?
    ensures Matches(s, i, [Bit(slash)]) && Unescape(s, c, i) == Piece([Escaped(slash)], i + 1)
  {
    slash := Peek(s, i) == 0x31;
    OneMatches(s, i, Bit(slash));
  }

  /** What the loop takes in one round is an atom. */
  lemma AtomFound(s: Bytes, i: nat, uri: bool) returns (a: Atom)
    requires i < |s| && s[i] != 0x2F && ReadPiece(s, i, uri).Piece?
    ensures ValidAtom(a, uri) && Matches(s, i, AtomText(a)) && i + |AtomText(a)| == ReadPiece(s, i, uri).next
  {
    hide Triplets, Validate, HexBytes, HexPairs, Encode, PercentText, Matches;
    if uri && s[i] == 0x25 {
      var cp, hex := EncodedFound(s, i);
      EncodedRead(s, i, cp, hex);
      OneByte(cp);
      EvenPairs(hex);
      if cp == 0x7E {
        Inside(s, i, PercentText(hex));
        var slash := EscapeFound(s, 0x7E, i + 3);
        a := EncodedEscape(hex, slash);
        MatchesSplit(s, i, PercentText(hex), [Bit(slash)]);
      } else {
        a := Encoded(cp, hex);
      }
    } else if s[i] == 0x7E {
      var slash := EscapeFound(s, 0x7E, i + 1);
      a := Escape(slash);
      OneMatches(s, i, 0x7E);
      MatchesSplit(s, i, [0x7E], [Bit(slash)]);
      assert [0x7E] + [Bit(slash)] == [0x7E, Bit(slash)];
    } else {
      a := Raw(s[i]);
      OneMatches(s, i, s[i]);
      UnreservedIs(s[i]);
    }
    AtomRead(s, i, uri, a);
  }

  lemma EvenPairs(hex: Bytes)
    requires HexPairs(hex)
    ensures |hex| % 2 == 0
  {
  }

  lemma {:induction false} AtomsFound(s: Bytes, i: nat, uri: bool) returns (atoms: seq<Atom>)
    requires i <= |s| && ReadName(s, i, uri).Piece?
    ensures ValidAtoms(atoms, uri) && Matches(s, i, AtomsText(atoms)) && i + |AtomsText(atoms)| == ReadName(s, i, uri).next
    decreases |s| - i
  {
    hide AtomText, ValidAtom, ReadPiece, Matches;
    if i == |s| || s[i] == 0x2F {
      atoms := [];
      SliceMatches(s, i, i);
      assert s[i..i] == [];
    } else {
      var a := AtomFound(s, i, uri);
      var rest := AtomsFound(s, i + |AtomText(a)|, uri);
      atoms := [a] + rest;
      assert atoms[1..] == rest;
      MatchesSplit(s, i, AtomText(a), AtomsText(rest));
    }
  }

  lemma {:induction false} NamesFound(s: Bytes, i: nat, uri: bool) returns (names: seq<seq<Atom>>)
    requires i <= |s| && (i < |s| ==> s[i] == 0x2F) && ReadNames(s, i, uri).Some?
    ensures ValidNames(names, uri) && Matches(s, i, NamesText(names)) && i + |NamesText(names)| == |s|
    decreases |s| - i
  {
    hide AtomsText, ValidAtoms, ReadName, Matches;
    if i == |s| {
      names := [];
      SliceMatches(s, i, i);
      assert s[i..i] == [];
    } else {
      var atoms := AtomsFound(s, i + 1, uri);
      var end := i + 1 + |AtomsText(atoms)|;
      var rest := NamesFound(s, end, uri);
      names := [atoms] + rest;
      assert names[1..] == rest;
      OneMatches(s, i, 0x2F);
      MatchesSplit(s, i + 1, AtomsText(atoms), NamesText(rest));
      MatchesSplit(s, i, [0x2F], AtomsText(atoms) + NamesText(rest));
    }
  }

  // ---- Pointers ----

  /** Every spelling of a list of names is read as these names. */
  lemma SpellingRead(names: seq<seq<Atom>>, uri: bool)
    requires ValidNames(names, uri)
    ensures Parse(PointerSpelt(names, uri)) == Some(TokensOf(NamesBytes(names)))
  {
    hide ReadNames, NamesText, NamesBytes, TokensOf, Matches;
    var s, head := PointerSpelt(names, uri), if uri then [0x23] else [];
    Whole(s);
    MatchesSplit(s, 0, head, NamesText(names));
    NamesAreRead(s, |head|, uri, names);
  }

  /** Whatever is accepted is a spelling. */
  lemma ParsedSpelled(s: Bytes) returns (names: seq<seq<Atom>>, uri: bool)
    requires Parse(s).Some?
    ensures ValidNames(names, uri) && s == PointerSpelt(names, uri)
  {
    hide ReadNames, NamesText, TokensOf, Matches;
    uri := Peek(s, 0) == 0x23;
    var i := if uri then 1 else 0;
    names := NamesFound(s, i, uri);
    SliceMatches(s, 0, i);
    assert s[0..i] == if uri then [0x23] else [];
    MatchesSplit(s, 0, s[0..i], NamesText(names));
    SameText(s, PointerSpelt(names, uri));
  }

  lemma SameText(s: Bytes, w: Bytes)
    requires Matches(s, 0, w) && |w| == |s|
    ensures s == w
  {
    forall k | 0 <= k < |s|
      ensures s[k] == w[k]
    {
      assert s[0 + k] == w[k];
    }
  }

  /** A text is read as these tokens exactly if it spells names that make them. */
  lemma ParsedIff(s: Bytes, tokens: seq<Token>)
    ensures Parse(s) == Some(tokens) <==>
            exists names, uri :: ValidNames(names, uri) && s == PointerSpelt(names, uri) && tokens == TokensOf(NamesBytes(names))
  {
    hide Parse, PointerSpelt, NamesBytes, TokensOf, ValidNames;
    if Parse(s) == Some(tokens) {
      var names, uri := ParsedSpelled(s);
      SpellingRead(names, uri);
    }
    if exists names, uri :: ValidNames(names, uri) && s == PointerSpelt(names, uri) && tokens == TokensOf(NamesBytes(names)) {
      var names, uri :| ValidNames(names, uri) && s == PointerSpelt(names, uri) && tokens == TokensOf(NamesBytes(names));
      SpellingRead(names, uri);
    }
  }
}
