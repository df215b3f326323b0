/**
 The string loop reads exactly the spellings of strings, and reads each as what it means.
 */
module JsonStrings {
  import opened ByteStrings
  import opened Utf8
  import opened JsonLexer
  import opened JsonSpelling

  // ---- Every spelling is read ----

  lemma HexIsHex(c: Byte)
    ensures HexDigit(c) == HexMeaning(c)
  {
  }

  lemma FourRead(s: Bytes, i: nat, d: Bytes)
    requires FourDigits(d) && Matches(s, i, d)
    ensures Hex4(s, i) == Some(UnitValue(d))
  {
    hide HexDigit, HexMeaning;
    assert s[i + 0] == d[0] && s[i + 1] == d[1] && s[i + 2] == d[2] && s[i + 3] == d[3];
    assert d[0] in d && d[1] in d && d[2] in d && d[3] in d;
    HexIsHex(d[0]);
    HexIsHex(d[1]);
    HexIsHex(d[2]);
    HexIsHex(d[3]);
  }

  lemma ShortIsUnescape(letter: Byte)
    ensures Unescape(letter) == (if ShortMeaning(letter).Some? then ShortMeaning(letter).value else 0)
    ensures ShortMeaning(letter).Some? ==> ShortMeaning(letter).value != 0
  {
  }

  lemma ShortRead(s: Bytes, f: Flags, i: nat, letter: Byte)
    requires ShortMeaning(letter).Some? && Matches(s, i, [0x5C, letter])
    ensures s[i] != Ch('"') && StringPiece(s, f, i) == Good([ShortMeaning(letter).value], i + 2)
  {
    hide Unescape, ShortMeaning, Hex4, Validate;
    ShortIsUnescape(letter);
    var text := [0x5C, letter];
    assert s[i + 0] == text[0] && s[i + 1] == text[1];
  }

  lemma UnitRead(s: Bytes, f: Flags, i: nat, d: Bytes)
    requires FourDigits(d) && !High(UnitValue(d)) && Matches(s, i, [0x5C, Ch('u')] + d)
    ensures s[i] != Ch('"') && StringPiece(s, f, i) == Good(Encode(UnitValue(d)), i + 6)
  {
    hide Hex4, Validate, Encode, UnitValue, FourDigits;
    var head := [0x5C, Ch('u')];
    MatchesSplit(s, i, head, d);
    assert s[i + 0] == head[0] && s[i + 1] == head[1];
    FourRead(s, i + 2, d);
  }

  lemma PairRead(s: Bytes, f: Flags, i: nat, h: Bytes, l: Bytes)
    requires FourDigits(h) && FourDigits(l) && High(UnitValue(h)) && Low(UnitValue(l))
    requires Matches(s, i, [0x5C, Ch('u')] + h + ([0x5C, Ch('u')] + l))
    ensures s[i] != Ch('"')
    ensures StringPiece(s, f, i)
            == Good(Encode(0x10000 + (UnitValue(h) - 0xD800) * 0x400 + (UnitValue(l) - 0xDC00)), i + 12)
  {
    hide Hex4, Validate, Encode, UnitValue;
    var head := [0x5C, Ch('u')];
    MatchesSplit(s, i, head + h, head + l);
    MatchesSplit(s, i, head, h);
    MatchesSplit(s, i + 6, head, l);
    assert s[i + 0] == head[0] && s[i + 1] == head[1] && s[i + 6 + 0] == head[0] && s[i + 6 + 1] == head[1];
    FourRead(s, i + 2, h);
    FourRead(s, i + 8, l);
  }

  lemma RawRead(s: Bytes, f: Flags, i: nat, cp: nat)
    requires Scalar(cp) && RawAllowed(cp) && f.validate && Matches(s, i, Encode(cp))
    ensures i < |s| && s[i] != Ch('"') && StringPiece(s, f, i) == Good(Encode(cp), i + |Encode(cp)|)
  {
    hide Decode, Validate, Hex4;
    var e := Encode(cp);
    First(s, i, e);
    DecodeEncoded(s, i, cp);
    ValidateLikeDecode(s, i);
    assert s[i..i + |e|] == e;
  }

  lemma ByteRead(s: Bytes, f: Flags, i: nat)
    requires !f.validate && i < |s| && RawAllowed(s[i])
    ensures s[i] != Ch('"') && StringPiece(s, f, i) == Good([s[i]], i + 1)
  {
  }

  /** Bytes as they are, if nothing is validated. */
  lemma {:induction false} BytesRead(s: Bytes, f: Flags, i: nat, raw: Bytes)
    requires !f.validate && (forall c <- raw :: RawAllowed(c)) && Matches(s, i, raw)
    ensures StringRest(s, f, i) == match StringRest(s, f, i + |raw|)
                                   case Bad => Bad
                                   case Good(rest, k) => Good(raw + rest, k)
    decreases |raw|
  {
    hide StringPiece;
    if raw == [] {
      var r := StringRest(s, f, i);
      assert r.Good? ==> [] + r.value == r.value;
    } else {
      assert raw == [raw[0]] + raw[1..] && raw[0] in raw;
      MatchesSplit(s, i, [raw[0]], raw[1..]);
      First(s, i, raw);
      ByteRead(s, f, i);
      BytesRead(s, f, i + 1, raw[1..]);
      var r := StringRest(s, f, i + |raw|);
      assert r.Good? ==> [raw[0]] + (raw[1..] + r.value) == raw + r.value;
    }
  }

  lemma EncodedAllowed(cp: nat)
    requires Scalar(cp) && RawAllowed(cp)
    ensures Encode(cp) != [] && forall c <- Encode(cp) :: RawAllowed(c)
  {
  }

  /** One piece, and the rest of the string. */
  lemma PieceRead(s: Bytes, f: Flags, i: nat, p: Piece)
    requires ValidPiece(p, f) && Matches(s, i, PieceText(p))
    ensures StringRest(s, f, i) == match StringRest(s, f, i + |PieceText(p)|)
                                   case Bad => Bad
                                   case Good(rest, k) => Good(PieceBytes(p, f) + rest, k)
  {
    hide StringPiece, Hex4, Encode, UnitValue, ShortMeaning;
    match p
    case RawByte(c) => BytesRead(s, f, i, [c]);
    case RawChar(cp) =>
      if f.validate {
        RawRead(s, f, i, cp);
      } else {
        EncodedAllowed(cp);
        BytesRead(s, f, i, Encode(cp));
      }
    case Short(letter) =>
      ShortRead(s, f, i, letter);
      ShortEncoded(letter);
    case Unit(d) => UnitRead(s, f, i, d);
    case Pair(h, l) => PairRead(s, f, i, h, l);
  }

  lemma ShortEncoded(letter: Byte)
    ensures ShortMeaning(letter).Some? ==> Encode(ShortMeaning(letter).value) == [ShortMeaning(letter).value]
  {
  }

  /** Every spelling of a string is read, as the bytes that it stands for. */
  lemma {:induction false} PiecesRead(s: Bytes, f: Flags, i: nat, ps: seq<Piece>)
    requires ValidPieces(ps, f) && Matches(s, i, PiecesText(ps) + [0x22])
    ensures StringRest(s, f, i) == Good(PiecesBytes(ps, f), i + |PiecesText(ps)| + 1)
    decreases |ps|
  {
    hide PieceText, PieceBytes, StringPiece, ValidPiece, Matches;
    if ps == [] {
      assert PiecesText(ps) + [0x22] == [0x22];
      First(s, i, [0x22]);
    } else {
      assert ps[0] in ps && forall p <- ps[1..] :: p in ps;
      var first, rest := PieceText(ps[0]), PiecesText(ps[1..]);
      Associates(first, rest, [0x22]);
      MatchesSplit(s, i, first, rest + [0x22]);
      PieceRead(s, f, i, ps[0]);
      PiecesRead(s, f, i + |first|, ps[1..]);
    }
  }

  // ---- Nothing else is read ----

  lemma FourSpelled(s: Bytes, i: nat)
    requires Hex4(s, i).Some?
    ensures i + 4 <= |s| && FourDigits(s[i..i + 4]) && UnitValue(s[i..i + 4]) == Hex4(s, i).value
  {
    hide HexDigit, HexMeaning;
    HexIsHex(s[i]);
    HexIsHex(s[i + 1]);
    HexIsHex(s[i + 2]);
    HexIsHex(s[i + 3]);
    var d := s[i..i + 4];
    assert d == [s[i], s[i + 1], s[i + 2], s[i + 3]];
  }

  /** What the loop takes in one round is a piece. */
  lemma PieceSpelled(s: Bytes, f: Flags, i: nat) returns (p: Piece)
    requires i < |s| && s[i] != Ch('"') && StringPiece(s, f, i).Good?
    ensures ValidPiece(p, f) && Matches(s, i, PieceText(p)) && i + |PieceText(p)| == StringPiece(s, f, i).next
  {
    hide Hex4, Validate, Encode, UnitValue, ShortMeaning, Unescape, FourDigits, Decode;
    if s[i] == 0x5C {
      var e := Peek(s, i + 1);
      ShortIsUnescape(e);
      if Unescape(e) != 0 {
        p := Short(e);
      } else {
        p := EscapeSpelled(s, f, i);
      }
    } else if f.validate {
      ValidateLikeDecode(s, i);
      EncodeDecoded(s, i);
      DecodeAdvances(s, i);
      var cp := Decode(s, i).cp;
      assert Matches(s, i, Encode(cp)) by {
        assert forall k :: 0 <= k < |Encode(cp)| ==> s[i + k] == s[i..Decode(s, i).next][k];
      }
      RawStart(s, i, cp);
      p := RawChar(cp);
    } else {
      p := RawByte(s[i]);
    }
  }

  lemma RawStart(s: Bytes, i: nat, cp: nat)
    requires Scalar(cp) && Matches(s, i, Encode(cp)) && i < |s| && RawAllowed(s[i])
    ensures RawAllowed(cp)
  {
    assert s[i + 0] == Encode(cp)[0];
  }

  lemma EscapeSpelled(s: Bytes, f: Flags, i: nat) returns (p: Piece)
    requires i < |s| && s[i] == 0x5C && Unescape(Peek(s, i + 1)) == 0 && StringPiece(s, f, i).Good?
    ensures ValidPiece(p, f) && Matches(s, i, PieceText(p)) && i + |PieceText(p)| == StringPiece(s, f, i).next
  {
    hide Hex4, Validate, Encode, UnitValue, Unescape, FourDigits, Matches;
    FourSpelled(s, i + 2);
    var h := s[i + 2..i + 6];
    UnitMatches(s, i);
    if High(UnitValue(h)) {
      FourSpelled(s, i + 8);
      var l := s[i + 8..i + 12];
      UnitMatches(s, i + 6);
      MatchesSplit(s, i, [0x5C, Ch('u')] + h, [0x5C, Ch('u')] + l);
      p := Pair(h, l);
    } else {
      p := Unit(h);
    }
  }

  lemma UnitMatches(s: Bytes, i: nat)
    requires i + 6 <= |s| && s[i] == 0x5C && s[i + 1] == Ch('u')
    ensures Matches(s, i, [0x5C, Ch('u')] + s[i + 2..i + 6])
  {
    assert [0x5C, Ch('u')] + s[i + 2..i + 6] == s[i..i + 6];
    SliceMatches(s, i, i + 6);
  }

  /** Whatever the loop reads as a string is a spelling of it. */
  lemma {:induction false} StringSpelled(s: Bytes, f: Flags, i: nat) returns (ps: seq<Piece>)
    requires i <= |s| && StringRest(s, f, i).Good?
    ensures ValidPieces(ps, f) && Matches(s, i, PiecesText(ps) + [0x22])
    ensures StringRest(s, f, i) == Good(PiecesBytes(ps, f), i + |PiecesText(ps)| + 1)
    decreases |s| - i
  {
    hide StringPiece, PieceText, ValidPiece, Matches, PiecesBytes;
    if s[i] == Ch('"') {
      ps := [];
      assert PiecesText([]) + [0x22] == [0x22];
      OneMatches(s, i, 0x22);
    } else {
      var p := PieceSpelled(s, f, i);
      var rest := StringSpelled(s, f, i + |PieceText(p)|);
      ps := [p] + rest;
      assert ps[0] == p && ps[1..] == rest;
      Associates(PieceText(p), PiecesText(rest), [0x22]);
      MatchesSplit(s, i, PieceText(p), PiecesText(rest) + [0x22]);
    }
    PiecesRead(s, f, i, ps);
  }

  // ---- In particular ----

  /** Spellings of a character: raw, escaped, or as one or two units. */
  predicate Spells(p: Piece, f: Flags, cp: nat)
  {
    Scalar(cp) && !p.RawByte? && ValidPiece(p, f) && PieceChar(p, f) == cp
  }

  /** However the characters of a text are spelled, the string is read as their UTF-8. */
  lemma {:induction false} CharactersRead(s: Bytes, f: Flags, i: nat, cps: seq<nat>, ps: seq<Piece>)
    requires |ps| == |cps| && (forall k :: 0 <= k < |ps| ==> Spells(ps[k], f, cps[k]))
    requires Matches(s, i, PiecesText(ps) + [0x22])
    ensures (forall cp <- cps :: Scalar(cp))
    ensures StringRest(s, f, i) == Good(EncodeAll(cps), i + |PiecesText(ps)| + 1)
    decreases |ps|
  {
    hide PieceText, PieceBytes, StringPiece, ValidPiece, Matches, PiecesBytes, PieceChar;
    PiecesRead(s, f, i, ps);
    CharactersMean(f, cps, ps);
  }

  lemma {:induction false} CharactersMean(f: Flags, cps: seq<nat>, ps: seq<Piece>)
    requires |ps| == |cps| && (forall k :: 0 <= k < |ps| ==> Spells(ps[k], f, cps[k]))
    ensures (forall cp <- cps :: Scalar(cp)) && ValidPieces(ps, f) && PiecesBytes(ps, f) == EncodeAll(cps)
    decreases |ps|
  {
    hide ValidPiece, PieceChar, Encode;
    if ps != [] {
      assert Spells(ps[0], f, cps[0]);
      CharactersMean(f, cps[1..], ps[1..]);
    }
  }

  /** What is refused: control characters, unknown escapes, \u without four hexadecimal digits,
      and a high surrogate that no low one follows. */
  lemma Refused(s: Bytes, f: Flags, i: nat)
    requires i < |s| && s[i] != 0x22
    ensures s[i] < 0x20 ==> StringRest(s, f, i) == Bad
    ensures s[i] == 0x5C && Peek(s, i + 1) != Ch('u') && ShortMeaning(Peek(s, i + 1)).None? ==> StringRest(s, f, i) == Bad
    ensures s[i] == 0x5C && Peek(s, i + 1) == Ch('u') && (i + 6 > |s| || !FourDigits(s[i + 2..i + 6])) ==>
              StringRest(s, f, i) == Bad
    ensures s[i] == 0x5C && Peek(s, i + 1) == Ch('u') && i + 6 <= |s| && FourDigits(s[i + 2..i + 6])
            && High(UnitValue(s[i + 2..i + 6]))
            && (i + 12 > |s| || s[i + 6..i + 8] != [0x5C, Ch('u')] || !FourDigits(s[i + 8..i + 12])
                || !Low(UnitValue(s[i + 8..i + 12]))) ==>
              StringRest(s, f, i) == Bad
  {
    hide Validate, Encode, Hex4, UnitValue, FourDigits, StringRest;
    assert StringPiece(s, f, i).Bad? ==> StringRest(s, f, i) == Bad by { BadPiece(s, f, i); }
    if s[i] == 0x5C {
      ShortIsUnescape(Peek(s, i + 1));
      if Hex4(s, i + 2).Some? {
        FourSpelled(s, i + 2);
      }
      if i + 8 <= |s| && s[i + 6..i + 8] != [0x5C, Ch('u')] {
        assert s[i + 6..i + 8] == [s[i + 6], s[i + 7]];
      }
      if Hex4(s, i + 8).Some? {
        FourSpelled(s, i + 8);
      }
    }
  }

  lemma BadPiece(s: Bytes, f: Flags, i: nat)
    requires i < |s| && s[i] != 0x22
    ensures StringPiece(s, f, i).Bad? ==> StringRest(s, f, i) == Bad
  {
  }
}
