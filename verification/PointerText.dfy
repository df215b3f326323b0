/**
 The text of a JSON Pointer: the plain form, and the URI fragment form with percent encoding.
 */
module PointerText {
  import opened ByteStrings
  import opened Utf8
  import opened JsonPointer

  // ---- Array indices ----

  /** All digits, and no leading zero. */
  predicate CanonicalDecimal(name: Bytes)
  {
    name != [] && (forall c <- name :: IsDigit(c)) && (|name| > 1 ==> name[0] != Ch('0'))
  }

  /** The conversion to SizeType: 32 bits wide, and an overflow is noticed only if the sum
      got smaller. */
  function Convert(name: Bytes, j: nat, n: nat): Option<nat>
    requires j <= |name| && forall c <- name :: IsDigit(c)
    decreases |name| - j
  {
    if j == |name| then Some(n)
    else
      assert name[j] in name;
      var m := (n * 10 + (name[j] - Ch('0'))) % WIDTH;
      if m < n then None else Convert(name, j + 1, m)
  }

  function IndexOf(name: Bytes): nat
  {
    if !CanonicalDecimal(name) then INVALID_INDEX
    else
      match Convert(name, 0, 0)
      case None => INVALID_INDEX
      case Some(n) => n
  }

  function Decimal(name: Bytes): nat
    requires forall c <- name :: IsDigit(c)
  {
    if name == [] then 0
    else
      var k := |name| - 1;
      assert name[k] in name && IsDigit(name[k]) && forall c <- name[..k] :: c in name;
      Decimal(name[..k]) * 10 + (name[k] - Ch('0'))
  }

  /** What the accumulator holds after `j` digits, as long as nothing was noticed. */
  function Residue(name: Bytes, j: nat): nat
    requires j <= |name| && forall c <- name :: IsDigit(c)
  {
    assert forall c <- name[..j] :: c in name;
    Decimal(name[..j]) % WIDTH
  }

  /** No digit makes the accumulator smaller. */
  predicate Rising(name: Bytes)
    requires forall c <- name :: IsDigit(c)
  {
    forall i | 0 <= i < |name| :: Residue(name, i) <= Residue(name, i + 1)
  }

  lemma DecimalStep(name: Bytes, j: nat)
    requires (forall c <- name :: IsDigit(c)) && j < |name|
    ensures (forall c <- name[..j] :: IsDigit(c)) && (forall c <- name[..j + 1] :: IsDigit(c))
    ensures 0 <= name[j] - Ch('0') <= 9
    ensures Decimal(name[..j + 1]) == Decimal(name[..j]) * 10 + (name[j] - Ch('0'))
  {
    assert name[..j + 1][..j] == name[..j] && name[..j + 1][j] == name[j] && name[j] in name;
    assert forall c <- name[..j + 1] :: c in name;
    assert forall c <- name[..j] :: c in name;
  }

  lemma ResidueStep(name: Bytes, j: nat)
    requires (forall c <- name :: IsDigit(c)) && j < |name|
    ensures 0 <= name[j] - Ch('0') <= 9
    ensures Residue(name, j + 1) == (Residue(name, j) * 10 + (name[j] - Ch('0'))) % WIDTH
  {
    hide Decimal, IsDigit;
    DecimalStep(name, j);
    WrappedStep(Decimal(name[..j]), name[j] - Ch('0'));
  }

  lemma WrappedStep(d: nat, x: nat)
    ensures ((d % WIDTH) * 10 + x) % WIDTH == (d * 10 + x) % WIDTH
  {
  }

  /** The conversion loop from digit `j` on, in terms of the residues. */
  lemma {:induction false} ConvertResidue(name: Bytes, j: nat)
    requires (forall c <- name :: IsDigit(c)) && j <= |name|
    ensures Convert(name, j, Residue(name, j))
            == if forall i | j <= i < |name| :: Residue(name, i) <= Residue(name, i + 1)
               then Some(Residue(name, |name|)) else None
    decreases |name| - j
  {
    hide Residue, IsDigit;
    if j < |name| {
      ResidueStep(name, j);
      ConvertResidue(name, j + 1);
    }
  }

  /** While the prefixes fit, nothing wraps. */
  lemma {:induction false} RisesWhileFits(name: Bytes, k: nat)
    requires (forall c <- name :: IsDigit(c)) && k <= |name|
    requires (forall c <- name[..k] :: IsDigit(c)) && Decimal(name[..k]) < WIDTH
    ensures Residue(name, k) == Decimal(name[..k])
    ensures forall i | 0 <= i < k :: Residue(name, i) <= Residue(name, i + 1)
    decreases k
  {
    hide Decimal, IsDigit;
    if k > 0 {
      DecimalStep(name, k - 1);
      RisesWhileFits(name, k - 1);
    }
  }

  /** The index that a name should have. */
  function ExpectedIndex(name: Bytes): nat
  {
    if CanonicalDecimal(name) && Decimal(name) < WIDTH then Decimal(name) else INVALID_INDEX
  }

  /** For every name: the index is the decimal modulo 2^32, unless some digit makes the
      accumulator smaller.  So it is the one expected exactly if the name is no canonical
      decimal, its value fits, some digit makes the accumulator smaller, or the wrapped value
      happens to be the invalid index. */
  lemma IndexExact(name: Bytes)
    ensures CanonicalDecimal(name) ==>
              IndexOf(name) == if Rising(name) then Decimal(name) % WIDTH else INVALID_INDEX
    ensures CanonicalDecimal(name) && Decimal(name) < WIDTH ==> Rising(name)
    ensures IndexOf(name) == ExpectedIndex(name) <==>
              (CanonicalDecimal(name) && Decimal(name) >= WIDTH && Rising(name) ==> Decimal(name) % WIDTH == INVALID_INDEX)
  {
    hide Decimal;
    if CanonicalDecimal(name) {
      assert name[..|name|] == name;
      NoDigits(name);
      ConvertResidue(name, 0);
      if Decimal(name) < WIDTH {
        RisesWhileFits(name, |name|);
      }
    }
  }

  lemma NoDigits(name: Bytes)
    ensures Decimal(name[..0]) == 0
  {
  }

  /** Where only the last digit can overflow, it is noticed exactly if the wrapped value is
      less than the value without that digit. */
  lemma LastDigitOverflows(name: Bytes)
    requires CanonicalDecimal(name) && Decimal(name) / 10 < WIDTH
    ensures IndexOf(name) == if Decimal(name) % WIDTH >= Decimal(name) / 10 then Decimal(name) % WIDTH else INVALID_INDEX
  {
    hide Decimal;
    var k := |name| - 1;
    DecimalStep(name, k);
    assert name[..k + 1] == name;
    RisesWhileFits(name, k);
    IndexExact(name);
    assert Residue(name, k) == Decimal(name) / 10 && Residue(name, k + 1) == Decimal(name) % WIDTH;
  }

  /** An overflow that is not noticed: 8589934590 becomes 4294967294. */
  lemma OverflowMissed()
    ensures var name := [56, 53, 56, 57, 57, 51, 52, 53, 57, 48];
            CanonicalDecimal(name) && Decimal(name) == 8589934590 && IndexOf(name) == 4294967294
  {
    hide Decimal, IndexOf;
    var name := [56, 53, 56, 57, 57, 51, 52, 53, 57, 48];
    assert name[..9] == [56, 53, 56, 57, 57, 51, 52, 53, 57] && name[..10] == name;
    FrontValue();
    DecimalStep(name, 9);
    LastDigitOverflows(name);
  }

  lemma FrontValue()
    ensures Decimal([56, 53, 56, 57, 57, 51, 52, 53, 57]) == 858993459
  {
    assert [56, 53, 56, 57, 57, 51, 52, 53, 57][..8] == [56, 53, 56, 57, 57, 51, 52, 53];
    assert [56, 53, 56, 57, 57, 51, 52, 53][..7] == [56, 53, 56, 57, 57, 51, 52];
    assert [56, 53, 56, 57, 57, 51, 52][..6] == [56, 53, 56, 57, 57, 51];
    assert [56, 53, 56, 57, 57, 51][..5] == [56, 53, 56, 57, 57];
    assert [56, 53, 56, 57, 57][..4] == [56, 53, 56, 57];
    assert [56, 53, 56, 57][..3] == [56, 53, 56];
    assert [56, 53, 56][..2] == [56, 53];
    assert [56, 53][..1] == [56];
    assert [56][..0] == [];
  }

  // ---- Writing ----

  predicate NeedPercentEncode(c: Byte)
  {
    !(IsDigit(c) || Ch('A') <= c <= Ch('Z') || Ch('a') <= c <= Ch('z')
      || c == Ch('-') || c == Ch('.') || c == Ch('_') || c == Ch('~'))
  }

  /** The bytes as percent triplets. */
  function Percent(bytes: Bytes): (r: Bytes)
    ensures |r| == 3 * |bytes|
  {
    if bytes == [] then []
    else [Ch('%'), HexChar(bytes[0] / 16), HexChar(bytes[0] % 16)] + Percent(bytes[1..])
  }

  /** How the byte at `j` of a name is written, and where writing goes on. */
  datatype Piece = Bad | Piece(bytes: Bytes, next: nat)

  function WritePiece(name: Bytes, j: nat, uri: bool): (r: Piece)
    requires j < |name|
    ensures r.Piece? ==> j < r.next <= |name|
  {
    var c := name[j];
    if c == Ch('~') then Piece([Ch('~'), Ch('0')], j + 1)
    else if c == Ch('/') then Piece([Ch('~'), Ch('1')], j + 1)
    else if uri && NeedPercentEncode(c) then
      ValidateLikeDecode(name, j);
      DecodeAdvances(name, j);
      var v := Validate(name, j);
      if v.ok then Piece(Percent(v.out), v.next) else Bad
    else Piece([c], j + 1)
  }

  function WriteName(name: Bytes, j: nat, uri: bool): Option<Bytes>
    requires j <= |name|
    decreases |name| - j
  {
    if j == |name| then Some([])
    else
      match WritePiece(name, j, uri)
      case Bad => None
      case Piece(bytes, next) =>
        match WriteName(name, next, uri)
        case None => None
        case Some(rest) => Some(bytes + rest)
  }

  function WriteNames(names: seq<Bytes>, uri: bool): Option<Bytes>
  {
    if names == [] then Some([])
    else
      match (WriteName(names[0], 0, uri), WriteNames(names[1..], uri))
      case (Some(first), Some(rest)) => Some([Ch('/')] + first + rest)
      case _ => None
  }

  /** None where the source returns false. */
  function Stringify(names: seq<Bytes>, uri: bool): Option<Bytes>
  {
    match WriteNames(names, uri)
    case None => None
    case Some(text) => Some(if uri then [Ch('#')] + text else text)
  }

  // ---- Reading ----

  /** The bytes that the percent triplets from `i` on stand for, up to the first bad one. */
  function Triplets(s: Bytes, i: nat): (r: Bytes)
    ensures i + 3 * |r| <= |s| || r == []
    decreases |s| - i
  {
    if i + 3 > |s| || s[i] != Ch('%') then []
    else
      match (HexDigit(s[i + 1]), HexDigit(s[i + 2]))
      case (Some(a), Some(b)) => [a * 16 + b] + Triplets(s, i + 3)
      case _ => []
  }

  /** The byte `c`, read up to `i`, or the escape that it starts. */
  function Unescape(s: Bytes, c: Byte, i: nat): (r: Piece)
    ensures r.Piece? ==> i <= r.next && |r.bytes| == 1 && (r.next > i ==> r.next <= |s|)
  {
    if c != Ch('~') then Piece([c], i)
    else if Peek(s, i) == Ch('0') then Piece([Ch('~')], i + 1)
    else if Peek(s, i) == Ch('1') then Piece([Ch('/')], i + 1)
    else Bad
  }

  /** One round of the inner loop of Parse: the bytes of the name, and where it goes on.  A
      percent-encoded UTF-8 sequence is read as a whole. */
  function ReadPiece(s: Bytes, i: nat, uri: bool): (r: Piece)
    requires i < |s|
    ensures r.Piece? ==> i < r.next <= |s| && 0 < |r.bytes| <= r.next - i
  {
    if uri && s[i] == Ch('%') then
      var t := Triplets(s, i);
      if t == [] then Bad
      else
        ValidateLikeDecode(t, 0);
        DecodeAdvances(t, 0);
        var v := Validate(t, 0);
        if !v.ok then Bad
        else if |v.out| > 1 then Piece(v.out, i + 3 * v.next)
        else Unescape(s, v.out[0], i + 3 * v.next)
    else if uri && NeedPercentEncode(s[i]) then Bad
    else Unescape(s, s[i], i + 1)
  }

  /** A name, up to the next solidus or the end. */
  function ReadName(s: Bytes, i: nat, uri: bool): (r: Piece)
    requires i <= |s|
    ensures r.Piece? ==> i <= r.next <= |s| && |r.bytes| <= r.next - i && (r.next < |s| ==> s[r.next] == Ch('/'))
    decreases |s| - i
  {
    if i == |s| || s[i] == Ch('/') then Piece([], i)
    else
      match ReadPiece(s, i, uri)
      case Bad => Bad
      case Piece(bytes, next) =>
        match ReadName(s, next, uri)
        case Bad => Bad
        case Piece(rest, end) => Piece(bytes + rest, end)
  }

  function ReadNames(s: Bytes, i: nat, uri: bool): Option<seq<Bytes>>
    requires i <= |s| && (i < |s| ==> s[i] == Ch('/'))
    decreases |s| - i
  {
    if i == |s| then Some([])
    else
      match ReadName(s, i + 1, uri)
      case Bad => None
      case Piece(name, end) =>
        match ReadNames(s, end, uri)
        case None => None
        case Some(rest) => Some([name] + rest)
  }

  /** The token of a name.  Its length is a SizeType, so that only the bytes which that counts
      belong to it; whether it is a number was found out from all of them. */
  function TokenOf(name: Bytes): Token
  {
    var counted := name[..|name| % WIDTH];
    Token(counted, if AllDigits(name) then IndexOf(counted) else INVALID_INDEX)
  }

  function TokensOf(names: seq<Bytes>): seq<Token>
  {
    if names == [] then [] else [TokenOf(names[0])] + TokensOf(names[1..])
  }

  function Parse(s: Bytes): Option<seq<Token>>
  {
    var uri := Peek(s, 0) == Ch('#');
    var i := if uri then 1 else 0;
    if i != |s| && Peek(s, i) != Ch('/') then None
    else
      match ReadNames(s, i, uri)
      case None => None
      case Some(names) => Some(TokensOf(names))
  }

  // ---- Names and their tokens ----

  predicate AllDigits(name: Bytes) { forall c <- name :: IsDigit(c) }

  /** The names, each with its index. */
  function Indexed(names: seq<Bytes>): seq<Token>
  {
    if names == [] then [] else [Token(names[0], IndexOf(names[0]))] + Indexed(names[1..])
  }

  lemma TokenExact(name: Bytes)
    ensures TokenOf(name) == Token(name, IndexOf(name)) <==> |name| < WIDTH
  {
    hide Convert;
    if |name| < WIDTH {
      assert name[..|name|] == name;
    }
  }

  lemma {:induction false} TokensExact(names: seq<Bytes>)
    ensures TokensOf(names) == Indexed(names) <==> forall name <- names :: |name| < WIDTH
    decreases |names|
  {
    hide TokenOf, IndexOf;
    if names != [] {
      TokenExact(names[0]);
      TokensExact(names[1..]);
      assert names == [names[0]] + names[1..];
      assert TokensOf(names)[0] == TokenOf(names[0]) && TokensOf(names)[1..] == TokensOf(names[1..]);
      assert Indexed(names)[1..] == Indexed(names[1..]);
    }
  }

  // ---- The names fit the buffer ----

  /** Bytes of all names with their terminators. */
  function NameBytes(names: seq<Bytes>): nat
  {
    if names == [] then 0 else |names[0]| + 1 + NameBytes(names[1..])
  }

  lemma {:induction false} NamesFit(s: Bytes, i: nat, uri: bool)
    requires i <= |s| && (i < |s| ==> s[i] == Ch('/')) && ReadNames(s, i, uri).Some?
    ensures NameBytes(ReadNames(s, i, uri).value) <= |s| - i
    decreases |s| - i
  {
    if i < |s| {
      NamesFit(s, ReadName(s, i + 1, uri).next, uri);
    }
  }

  // ---- Round trip ----

  /** A UTF-8 sequence is read the same wherever it stands. */
  lemma SequenceMoved(name: Bytes, j: nat, t: Bytes)
    requires j < |name| && Validate(name, j).ok
    requires Validate(name, j).out <= t
    ensures Validate(name, j).out == name[j..Validate(name, j).next]
    ensures t != [] && Validate(t, 0) == Validating(true, Validate(name, j).out, |Validate(name, j).out|)
  {
    hide Decode, Validate, Encode;
    ValidateLikeDecode(name, j);
    EncodeDecoded(name, j);
    var d := Decode(name, j);
    var e := Encode(d.cp);
    assert name[j..d.next] == e && e == Validate(name, j).out;
    assert forall k :: 0 <= k < |e| ==> t[0 + k] == e[k];
    DecodeEncoded(t, 0, d.cp);
    ValidateLikeDecode(t, 0);
    assert t[0..|e|] == e;
  }

  lemma {:induction false} TripletsRead(s: Bytes, i: nat, bytes: Bytes)
    requires Matches(s, i, Percent(bytes))
    ensures bytes <= Triplets(s, i)
    decreases |bytes|
  {
    if bytes != [] {
      var b := bytes[0];
      var first := [Ch('%'), HexChar(b / 16), HexChar(b % 16)];
      MatchesSplit(s, i, first, Percent(bytes[1..]));
      assert s[i + 0] == first[0] && s[i + 1] == first[1] && s[i + 2] == first[2];
      assert HexDigit(s[i + 1]) == Some(b / 16) && HexDigit(s[i + 2]) == Some(b % 16);
      TripletsRead(s, i + 3, bytes[1..]);
      assert Triplets(s, i) == [b] + Triplets(s, i + 3);
      assert bytes == [b] + bytes[1..];
    }
  }

  /** What Stringify writes for a piece of a name, Parse reads as that piece. */
  lemma PieceRead(s: Bytes, i: nat, name: Bytes, j: nat, uri: bool)
    requires j < |name| && WritePiece(name, j, uri).Piece? && Matches(s, i, WritePiece(name, j, uri).bytes)
    ensures var w := WritePiece(name, j, uri);
            && i < |s| && s[i] != Ch('/') && w.bytes != []
            && ReadPiece(s, i, uri) == Piece(name[j..w.next], i + |w.bytes|)
  {
    hide Validate, Decode;
    var c, w := name[j], WritePiece(name, j, uri);
    if c == Ch('~') || c == Ch('/') {
      assert s[i + 0] == w.bytes[0] && s[i + 1] == w.bytes[1];
      assert name[j..j + 1] == [c];
    } else if uri && NeedPercentEncode(c) {
      var out := Validate(name, j).out;
      ValidateLikeDecode(name, j);
      DecodeAdvances(name, j);
      TripletsRead(s, i, out);
      SequenceMoved(name, j, Triplets(s, i));
      assert out[0] == c;
      assert s[i + 0] == Percent(out)[0];
    } else {
      First(s, i, w.bytes);
      assert name[j..j + 1] == [c];
    }
  }

  lemma {:induction false} NameRead(s: Bytes, i: nat, name: Bytes, j: nat, uri: bool)
    requires j <= |name| && WriteName(name, j, uri).Some? && Matches(s, i, WriteName(name, j, uri).value)
    requires var end := i + |WriteName(name, j, uri).value|; end == |s| || s[end] == Ch('/')
    ensures ReadName(s, i, uri) == Piece(name[j..], i + |WriteName(name, j, uri).value|)
    decreases |name| - j
  {
    hide WritePiece, ReadPiece, Matches;
    if j < |name| {
      var w := WritePiece(name, j, uri);
      var rest := WriteName(name, w.next, uri).value;
      MatchesSplit(s, i, w.bytes, rest);
      PieceRead(s, i, name, j, uri);
      NameRead(s, i + |w.bytes|, name, w.next, uri);
      assert name[j..w.next] + name[w.next..] == name[j..];
    }
  }

  lemma {:induction false} NamesRead(s: Bytes, i: nat, names: seq<Bytes>, uri: bool)
    requires WriteNames(names, uri).Some? && Matches(s, i, WriteNames(names, uri).value)
    requires i + |WriteNames(names, uri).value| == |s|
    ensures (i < |s| ==> s[i] == Ch('/')) && ReadNames(s, i, uri) == Some(names)
    decreases |names|
  {
    hide WriteName, ReadName, IndexOf, Matches;
    if names != [] {
      var first, rest := WriteName(names[0], 0, uri).value, WriteNames(names[1..], uri).value;
      Associates([Ch('/')], first, rest);
      MatchesSplit(s, i, [Ch('/')], first + rest);
      MatchesSplit(s, i + 1, first, rest);
      First(s, i, [Ch('/')]);
      NamesRead(s, i + 1 + |first|, names[1..], uri);
      NameRead(s, i + 1, names[0], 0, uri);
      assert names[0][0..] == names[0];
      assert names == [names[0]] + names[1..];
    }
  }

  /** The fragment form can be written exactly if the name is valid UTF-8. */
  lemma {:induction false} WritesValid(name: Bytes, j: nat)
    requires j <= |name|
    ensures WriteName(name, j, true).Some? <==> DecodeAll(name, j).Some?
    ensures WriteName(name, j, false).Some?
    decreases |name| - j
  {
    hide Decode, Validate;
    if j < |name| {
      ValidateLikeDecode(name, j);
      DecodeAdvances(name, j);
      if name[j] < 0x80 {
        AsciiDecodes(name, j);
      }
      WritesValid(name, j + 1);
      WritesValid(name, Decode(name, j).next);
    }
  }

  lemma AsciiDecodes(s: Bytes, i: nat)
    requires i < |s| && s[i] < 0x80
    ensures Decode(s, i) == Decoding(true, s[i], i + 1)
  {
  }

  lemma {:induction false} WritesAll(names: seq<Bytes>)
    ensures WriteNames(names, true).Some? <==> forall name <- names :: DecodeAll(name, 0).Some?
    ensures WriteNames(names, false).Some?
    decreases |names|
  {
    if names != [] {
      WritesValid(names[0], 0);
      WritesAll(names[1..]);
      assert forall name <- names :: name == names[0] || name in names[1..];
      assert names[0] in names && forall name <- names[1..] :: name in names;
    }
  }

  /** For every list of names: the plain form always exists, the fragment form exactly if all
      names are valid UTF-8.  Parsing either reads these names, in a buffer no longer than the
      text; the tokens are the names, each with its index, exactly if all lengths fit 32 bits. */
  lemma RoundTrip(names: seq<Bytes>, uri: bool)
    ensures Stringify(names, uri).Some? <==> (uri ==> forall name <- names :: DecodeAll(name, 0).Some?)
    ensures Stringify(names, uri).Some? ==>
              var text := Stringify(names, uri).value;
              && Parse(text) == Some(TokensOf(names)) && NameBytes(names) <= |text|
              && (Parse(text) == Some(Indexed(names)) <==> forall name <- names :: |name| < WIDTH)
  {
    hide WriteNames, ReadNames, TokensOf, Indexed, Matches;
    WritesAll(names);
    if Stringify(names, uri).Some? {
      var body, text := WriteNames(names, uri).value, Stringify(names, uri).value;
      var i := if uri then 1 else 0;
      assert Matches(text, i, body) by { TextMatches(body, uri); }
      NamesRead(text, i, names, uri);
      NamesFit(text, i, uri);
      TokensExact(names);
    }
  }

  lemma TextMatches(body: Bytes, uri: bool)
    ensures Matches(if uri then [Ch('#')] + body else body, if uri then 1 else 0, body)
  {
  }

  /** Tokens that Parse made know that "-" is no index. */
  lemma {:induction false} DashParsed(names: seq<Bytes>)
    ensures DashHasNoIndex(TokensOf(names))
    decreases |names|
  {
    if names != [] {
      DashParsed(names[1..]);
      var t := TokenOf(names[0]);
      if IsDash(t) {
        assert names[0][0] == t.name[0] && names[0][0] in names[0];
      }
    }
  }

  // ---- The loops of Parse ----

  /** More than one byte at once is never a digit. */
  lemma LongPiece(s: Bytes, i: nat, uri: bool)
    requires i < |s| && ReadPiece(s, i, uri).Piece? && |ReadPiece(s, i, uri).bytes| > 1
    ensures !AllDigits(ReadPiece(s, i, uri).bytes)
  {
    var t := Triplets(s, i);
    var v := Validate(t, 0);
    assert t[0] >= 0x80;
    ValidateLikeDecode(t, 0);
    DecodeAdvances(t, 0);
    assert v.out[0] == t[0] && v.out[0] in v.out;
  }

  /** The inner loop: the name, and the first check for an index. */
  method ScanName(s: Bytes, from: nat, uri: bool) returns (r: Piece, isNumber: bool)
    requires from <= |s|
    ensures r == ReadName(s, from, uri)
    ensures r.Piece? ==> isNumber == AllDigits(r.bytes)
  {
    hide ReadPiece;
    var i, name := from, [];
    isNumber := true;
    assert ReadName(s, from, uri).Piece? ==> [] + ReadName(s, from, uri).bytes == ReadName(s, from, uri).bytes;
    while i < |s| && s[i] != Ch('/')
      invariant from <= i <= |s| && |name| <= i - from
      invariant match ReadName(s, i, uri)
                case Bad => ReadName(s, from, uri) == Bad
                case Piece(rest, end) => ReadName(s, from, uri) == Piece(name + rest, end)
      invariant isNumber == AllDigits(name)
      decreases |s| - i
    {
      var piece := ReadPiece(s, i, uri);
      if piece.Bad? {
        return Bad, false;
      }
      if ReadName(s, piece.next, uri).Piece? {
        Associates(name, piece.bytes, ReadName(s, piece.next, uri).bytes);
      }
      if |piece.bytes| > 1 {
        LongPiece(s, i, uri);
        isNumber := false;
      } else if !IsDigit(piece.bytes[0]) {
        isNumber := false;
      }
      i, name := piece.next, name + piece.bytes;
    }
    assert name + [] == name;
    return Piece(name, i), isNumber;
  }

  /** The conversion loop and the second check. */
  method ConvertIndex(name: Bytes, digits: bool) returns (index: nat)
    requires digits ==> AllDigits(name)
    ensures index == if digits then IndexOf(name) else INVALID_INDEX
  {
    if !digits || |name| == 0 || (|name| > 1 && name[0] == Ch('0')) {
      return INVALID_INDEX;
    }
    var n, j := 0, 0;
    while j < |name|
      invariant 0 <= j <= |name| && n >= 0 && Convert(name, j, n) == Convert(name, 0, 0)
    {
      assert name[j] in name;
      var m := (n * 10 + (name[j] - Ch('0'))) % WIDTH;
      if m < n {
        return INVALID_INDEX;
      }
      n, j := m, j + 1;
    }
    return n;
  }

  /** The outer loop; `used` is the part of the name buffer that is filled, and it never
      passes the read position. */
  method ParsePointer(s: Bytes) returns (r: Option<seq<Token>>)
    ensures r == Parse(s)
  {
    hide ReadName, IndexOf;
    var uri := Peek(s, 0) == Ch('#');
    var i := if uri then 1 else 0;
    if i != |s| && Peek(s, i) != Ch('/') {
      return None;
    }
    var tokens, used := [], 0;
    assert ReadNames(s, i, uri).Some? ==>
             [] + TokensOf(ReadNames(s, i, uri).value) == TokensOf(ReadNames(s, i, uri).value);
    while i < |s|
      invariant i <= |s| && (i < |s| ==> s[i] == Ch('/')) && used <= i
      invariant match ReadNames(s, i, uri)
                case None => Parse(s) == None
                case Some(rest) => Parse(s) == Some(tokens + TokensOf(rest))
      decreases |s| - i
    {
      var name, isNumber := ScanName(s, i + 1, uri);
      if name.Bad? {
        return None;
      }
      var length := |name.bytes| % WIDTH;
      assert isNumber ==> forall c <- name.bytes[..length] :: c in name.bytes;
      var index := ConvertIndex(name.bytes[..length], isNumber);
      var token := Token(name.bytes[..length], index);
      if ReadNames(s, name.next, uri).Some? {
        TokensStep(tokens, name.bytes, ReadNames(s, name.next, uri).value);
      }
      tokens := tokens + [token];
      used := used + |name.bytes| + 1;
      i := name.next;
    }
    assert tokens + [] == tokens;
    return Some(tokens);
  }

  lemma TokensStep(tokens: seq<Token>, name: Bytes, rest: seq<Bytes>)
    ensures tokens + TokensOf([name] + rest) == tokens + [TokenOf(name)] + TokensOf(rest)
  {
    hide TokenOf;
    assert ([name] + rest)[1..] == rest;
  }
}
