/**
 The UTF-8 codec: one code point at a time, and whole streams.

 Shifts, masks and ORs of disjoint bits are written as division, remainder and sum.
 Reading at the end of the stream yields 0 and does not move, as `MemoryStream::Take` does.
 */
module Utf8 {
  import opened ByteStrings

  predicate Scalar(cp: int) { 0 <= cp <= 0xD7FF || 0xE000 <= cp <= 0x10FFFF }

  function Encode(cp: nat): Bytes
    requires cp <= 0x10FFFF
  {
    if cp <= 0x7F then [cp]
    else if cp <= 0x7FF then [0xC0 + cp / 64, 0x80 + cp % 64]
    else if cp <= 0xFFFF then [0xE0 + cp / 4096, 0x80 + cp / 64 % 64, 0x80 + cp % 64]
    else [0xF0 + cp / 262144, 0x80 + cp / 4096 % 64, 0x80 + cp / 64 % 64, 0x80 + cp % 64]
  }

  /** The byte class table. */
  function GetRange(c: Byte): int
  {
    if c < 0x80 then 0
    else if c < 0x90 then 0x10
    else if c < 0xA0 then 0x40
    else if c < 0xC0 then 0x20
    else if c < 0xC2 then 8
    else if c < 0xE0 then 2
    else if c == 0xE0 then 10
    else if c == 0xED then 4
    else if c < 0xF0 then 3
    else if c == 0xF0 then 11
    else if c < 0xF4 then 6
    else if c == 0xF4 then 5
    else 8
  }

  /** `(GetRange(c) & mask) != 0` for a mask made of the bits 0x10, 0x20 and 0x40. */
  predicate Hits(c: Byte, mask: int)
  {
    var r := GetRange(c);
    || (r == 0x10 && mask / 0x10 % 2 == 1)
    || (r == 0x20 && mask / 0x20 % 2 == 1)
    || (r == 0x40 && mask / 0x40 % 2 == 1)
  }

  function Take(s: Bytes, i: nat): (Byte, nat)
  {
    if i < |s| then (s[i], i + 1) else (0, i)
  }

  /** A decoder in the middle of a sequence. */
  datatype Decoding = Decoding(ok: bool, cp: nat, next: nat)

  /** `COPY(); TRANS(mask)` of the decoder. */
  function Tail(s: Bytes, d: Decoding, mask: int): Decoding
  {
    var (c, next) := Take(s, d.next);
    Decoding(d.ok && Hits(c, mask), d.cp * 64 + c % 64, next)
  }

  /** `0xFF >> type` as a modulus: the payload bits of the lead byte. */
  function LeadModulus(lead: int): nat
  {
    match lead
    case 2 => 64 case 3 => 32 case 4 => 16 case 5 => 8 case 6 => 4 case _ => 1
  }

  function Decode(s: Bytes, i: nat): Decoding
  {
    var (c, next) := Take(s, i);
    if c < 0x80 then Decoding(true, c, next)
    else
      var lead := GetRange(c);
      var d := Decoding(true, if lead >= 32 then 0 else c % LeadModulus(lead), next);
      match lead
      case 2 => Tail(s, d, 0x70)
      case 3 => Tail(s, Tail(s, d, 0x70), 0x70)
      case 4 => Tail(s, Tail(s, d, 0x50), 0x70)
      case 5 => Tail(s, Tail(s, Tail(s, d, 0x10), 0x70), 0x70)
      case 6 => Tail(s, Tail(s, Tail(s, d, 0x70), 0x70), 0x70)
      case 10 => Tail(s, Tail(s, d, 0x20), 0x70)
      case 11 => Tail(s, Tail(s, Tail(s, d, 0x60), 0x70), 0x70)
      case _ => d.(ok := false)
  }

  /** A validator in the middle of a sequence: it copies what it reads. */
  datatype Validating = Validating(ok: bool, out: Bytes, next: nat)

  /** `COPY(); TRANS(mask)` of the validator. */
  function CopyTail(s: Bytes, v: Validating, mask: int): Validating
  {
    var (c, next) := Take(s, v.next);
    Validating(v.ok && Hits(c, mask), v.out + [c], next)
  }

  function Validate(s: Bytes, i: nat): Validating
  {
    var (c, next) := Take(s, i);
    var v := Validating(true, [c], next);
    if c < 0x80 then v
    else
      match GetRange(c)
      case 2 => CopyTail(s, v, 0x70)
      case 3 => CopyTail(s, CopyTail(s, v, 0x70), 0x70)
      case 4 => CopyTail(s, CopyTail(s, v, 0x50), 0x70)
      case 5 => CopyTail(s, CopyTail(s, CopyTail(s, v, 0x10), 0x70), 0x70)
      case 6 => CopyTail(s, CopyTail(s, CopyTail(s, v, 0x70), 0x70), 0x70)
      case 10 => CopyTail(s, CopyTail(s, v, 0x20), 0x70)
      case 11 => CopyTail(s, CopyTail(s, CopyTail(s, v, 0x60), 0x70), 0x70)
      case _ => v.(ok := false)
  }

  /** Decoding a stream to its end. */
  function DecodeAll(s: Bytes, i: nat): Option<seq<nat>>
    requires i <= |s|
    decreases |s| - i
  {
    if i == |s| then Some([])
    else
      DecodeAdvances(s, i);
      var d := Decode(s, i);
      if !d.ok then None
      else
        match DecodeAll(s, d.next)
        case None => None
        case Some(rest) => Some([d.cp] + rest)
  }

  function EncodeAll(cps: seq<nat>): Bytes
    requires forall cp <- cps :: Scalar(cp)
  {
    if cps == [] then []
    else
      assert cps[0] in cps && Scalar(cps[0]) && forall cp <- cps[1..] :: cp in cps;
      Encode(cps[0]) + EncodeAll(cps[1..])
  }

  // ---- One code point ----

  lemma DecodeAdvances(s: Bytes, i: nat)
    requires i < |s|
    ensures i < Decode(s, i).next <= |s|
  {
  }

  /** A continuation byte carrying the six bits `y`, and which masks let it through. */
  lemma TailByte(y: nat)
    requires y < 64
    ensures (0x80 + y) % 64 == y && Hits(0x80 + y, 0x70)
    ensures Hits(0x80 + y, 0x10) <==> y < 16
    ensures Hits(0x80 + y, 0x50) <==> y < 32
    ensures Hits(0x80 + y, 0x20) <==> y >= 32
    ensures Hits(0x80 + y, 0x60) <==> y >= 16
  {
  }

  lemma Encode2(x: nat, y: nat)
    requires 2 <= x < 32 && y < 64
    ensures Encode(x * 64 + y) == [0xC0 + x, 0x80 + y] && Scalar(x * 64 + y)
  {
    assert (x * 64 + y) / 64 == x && (x * 64 + y) % 64 == y;
  }

  lemma Encode3(x: nat, y: nat, z: nat)
    requires x < 16 && y < 64 && z < 64 && (x == 0 ==> y >= 32)
    ensures Encode(x * 4096 + y * 64 + z) == [0xE0 + x, 0x80 + y, 0x80 + z]
    ensures Scalar(x * 4096 + y * 64 + z) <==> (x == 13 ==> y < 32)
  {
    var cp := x * 4096 + y * 64 + z;
    assert cp / 64 == x * 64 + y && cp % 64 == z;
    assert cp / 4096 == x && (x * 64 + y) % 64 == y;
  }

  lemma Encode4(x: nat, y: nat, z: nat, w: nat)
    requires x <= 4 && y < 64 && z < 64 && w < 64 && (x == 0 ==> y >= 16) && (x == 4 ==> y < 16)
    ensures Encode(x * 262144 + y * 4096 + z * 64 + w) == [0xF0 + x, 0x80 + y, 0x80 + z, 0x80 + w]
    ensures Scalar(x * 262144 + y * 4096 + z * 64 + w)
  {
    var cp := x * 262144 + y * 4096 + z * 64 + w;
    assert cp / 64 == x * 4096 + y * 64 + z && cp % 64 == w;
    assert cp / 4096 == x * 64 + y && (x * 4096 + y * 64 + z) % 64 == z;
    assert cp / 262144 == x && (x * 64 + y) % 64 == y;
  }

  lemma Decode2(s: Bytes, i: nat, x: nat, y: nat)
    requires i + 2 <= |s| && 2 <= x < 32 && y < 64 && s[i] == 0xC0 + x && s[i + 1] == 0x80 + y
    ensures Decode(s, i) == Decoding(true, x * 64 + y, i + 2)
  {
    TailByte(y);
    assert (0xC0 + x) % 64 == x;
  }

  lemma Decode3(s: Bytes, i: nat, x: nat, y: nat, z: nat)
    requires i + 3 <= |s| && x < 16 && y < 64 && z < 64
    requires s[i] == 0xE0 + x && s[i + 1] == 0x80 + y && s[i + 2] == 0x80 + z
    ensures var ok := (x == 0 ==> y >= 32) && (x == 13 ==> y < 32);
            Decode(s, i) == Decoding(ok, x * 4096 + y * 64 + z, i + 3)
  {
    TailByte(y);
    TailByte(z);
    assert (0xE0 + x) % 32 == x;
  }

  lemma Decode4(s: Bytes, i: nat, x: nat, y: nat, z: nat, w: nat)
    requires i + 4 <= |s| && x <= 4 && y < 64 && z < 64 && w < 64
    requires s[i] == 0xF0 + x && s[i + 1] == 0x80 + y && s[i + 2] == 0x80 + z && s[i + 3] == 0x80 + w
    ensures var ok := (x == 0 ==> y >= 16) && (x == 4 ==> y < 16);
            Decode(s, i) == Decoding(ok, x * 262144 + y * 4096 + z * 64 + w, i + 4)
  {
    TailByte(y);
    TailByte(z);
    TailByte(w);
  }

  lemma SixBitGroups(cp: nat) returns (x: nat, y: nat, z: nat, w: nat)
    ensures cp == x * 262144 + y * 4096 + z * 64 + w && y < 64 && z < 64 && w < 64
  {
    var a := cp / 64;
    var b := a / 64;
    w, z, y, x := cp % 64, a % 64, b % 64, b / 64;
    assert cp == a * 64 + w && a == b * 64 + z && b == x * 64 + y;
  }

  /** Decoding undoes encoding, whatever follows. */
  lemma DecodeEncoded(s: Bytes, i: nat, cp: nat)
    requires Scalar(cp) && i + |Encode(cp)| <= |s|
    requires forall k :: 0 <= k < |Encode(cp)| ==> s[i + k] == Encode(cp)[k]
    ensures Decode(s, i) == Decoding(true, cp, i + |Encode(cp)|)
  {
    var e := Encode(cp);
    var x, y, z, w := SixBitGroups(cp);
    assert s[i + 0] == e[0];
    if 0x7F < cp <= 0x7FF {
      Encode2(z, w);
      assert s[i + 1] == e[1];
      Decode2(s, i, z, w);
    } else if 0x7FF < cp <= 0xFFFF {
      Encode3(y, z, w);
      assert s[i + 1] == e[1] && s[i + 2] == e[2];
      Decode3(s, i, y, z, w);
    } else if 0xFFFF < cp {
      Encode4(x, y, z, w);
      assert s[i + 1] == e[1] && s[i + 2] == e[2] && s[i + 3] == e[3];
      Decode4(s, i, x, y, z, w);
    }
  }

  /** A well formed sequence is the encoding of what it decodes to. */
  ghost predicate Canonical(s: Bytes, i: nat, d: Decoding)
  {
    Scalar(d.cp) && i < d.next <= |s| && s[i..d.next] == Encode(d.cp)
  }

  lemma Sequence2(s: Bytes, i: nat, x: nat, y: nat)
    requires i + 2 <= |s| && 2 <= x < 32 && y < 64 && s[i] == 0xC0 + x && s[i + 1] == 0x80 + y
    ensures Canonical(s, i, Decode(s, i))
  {
    Decode2(s, i, x, y);
    Encode2(x, y);
    assert s[i..i + 2] == [s[i], s[i + 1]];
  }

  lemma Sequence3(s: Bytes, i: nat, x: nat, y: nat, z: nat)
    requires i + 3 <= |s| && x < 16 && y < 64 && z < 64
    requires s[i] == 0xE0 + x && s[i + 1] == 0x80 + y && s[i + 2] == 0x80 + z
    ensures Decode(s, i).ok ==> Canonical(s, i, Decode(s, i))
  {
    Decode3(s, i, x, y, z);
    if x == 0 ==> y >= 32 {
      Encode3(x, y, z);
      assert s[i..i + 3] == [s[i], s[i + 1], s[i + 2]];
    }
  }

  lemma Sequence4(s: Bytes, i: nat, x: nat, y: nat, z: nat, w: nat)
    requires i + 4 <= |s| && x <= 4 && y < 64 && z < 64 && w < 64
    requires s[i] == 0xF0 + x && s[i + 1] == 0x80 + y && s[i + 2] == 0x80 + z && s[i + 3] == 0x80 + w
    ensures Decode(s, i).ok ==> Canonical(s, i, Decode(s, i))
  {
    Decode4(s, i, x, y, z, w);
    if (x == 0 ==> y >= 16) && (x == 4 ==> y < 16) {
      Encode4(x, y, z, w);
      assert s[i..i + 4] == [s[i], s[i + 1], s[i + 2], s[i + 3]];
    }
  }

  lemma TailInRange(s: Bytes, d: Decoding, mask: int)
    requires Tail(s, d, mask).ok
    ensures d.ok && d.next < |s| && 0x80 <= s[d.next] < 0xC0 && Tail(s, d, mask).next == d.next + 1
  {
  }

  /** A sequence that decodes has as many continuation bytes as its lead byte asks for. */
  lemma DecodedTails(s: Bytes, i: nat)
    requires i < |s| && s[i] >= 0x80 && Decode(s, i).ok
    ensures 0xC2 <= s[i] < 0xF5
    ensures i + 1 < |s| && 0x80 <= s[i + 1] < 0xC0
    ensures s[i] >= 0xE0 ==> i + 2 < |s| && 0x80 <= s[i + 2] < 0xC0
    ensures s[i] >= 0xF0 ==> i + 3 < |s| && 0x80 <= s[i + 3] < 0xC0
  {
    var lead := GetRange(s[i]);
    var d0 := Decoding(true, if lead >= 32 then 0 else s[i] % LeadModulus(lead), i + 1);
    var mask := match lead case 4 => 0x50 case 5 => 0x10 case 10 => 0x20 case 11 => 0x60 case _ => 0x70;
    var d1 := Tail(s, d0, mask);
    var d2 := Tail(s, d1, 0x70);
    if s[i] >= 0xF0 {
      TailInRange(s, d2, 0x70);
    }
    if s[i] >= 0xE0 {
      TailInRange(s, d1, 0x70);
    }
    TailInRange(s, d0, mask);
  }

  /** What decodes is the encoding of the scalar value it decodes to. */
  lemma EncodeDecoded(s: Bytes, i: nat)
    requires i < |s| && Decode(s, i).ok
    ensures Canonical(s, i, Decode(s, i))
  {
    var b := s[i];
    if b >= 0x80 {
      DecodedTails(s, i);
      var y := s[i + 1] - 0x80;
      if b < 0xE0 {
        Sequence2(s, i, b - 0xC0, y);
      } else if b < 0xF0 {
        var z := s[i + 2] - 0x80;
        Sequence3(s, i, b - 0xE0, y, z);
      } else {
        var z, w := s[i + 2] - 0x80, s[i + 3] - 0x80;
        Sequence4(s, i, b - 0xF0, y, z, w);
      }
    }
  }

  // ---- Whole streams ----

  /** A stream decodes to `cps` exactly when it is the concatenation of their encodings. */
  lemma {:induction false} StreamDecodes(s: Bytes, i: nat, cps: seq<nat>)
    requires i <= |s|
    ensures DecodeAll(s, i) == Some(cps) <==> (forall cp <- cps :: Scalar(cp)) && s[i..] == EncodeAll(cps)
    decreases |s| - i
  {
    if i == |s| {
      if cps != [] && forall cp <- cps :: Scalar(cp) {
        assert cps[0] in cps;
      }
    } else {
      var d := Decode(s, i);
      DecodeAdvances(s, i);
      if d.ok {
        EncodeDecoded(s, i);
        assert s[i..] == s[i..d.next] + s[d.next..];
      }
      if cps != [] {
        var first, rest := cps[0], cps[1..];
        assert cps == [first] + rest;
        assert (forall cp <- cps :: Scalar(cp)) <==> Scalar(first) && forall cp <- rest :: Scalar(cp);
        if d.ok && d.cp == first {
          StreamDecodes(s, d.next, rest);
        } else if (forall cp <- cps :: Scalar(cp)) && s[i..] == EncodeAll(cps) {
          assert EncodeAll(cps) == Encode(first) + EncodeAll(rest);
          forall k | 0 <= k < |Encode(first)| ensures s[i + k] == Encode(first)[k] {
            assert s[i..][k] == Encode(first)[k];
          }
          DecodeEncoded(s, i, first);
          assert false;
        }
      }
    }
  }

  /** A validator and a decoder in the same place; the one has copied what it read from
      `i` on, and zeros for reads at the end of the stream. */
  ghost predicate Together(s: Bytes, i: nat, d: Decoding, v: Validating)
  {
    && v.ok == d.ok && v.next == d.next && i <= v.next <= |s|
    && v.next - i <= |v.out| && v.out[..v.next - i] == s[i..v.next]
    && (forall k :: v.next - i <= k < |v.out| ==> v.out[k] == 0)
    && (|v.out| > v.next - i ==> v.next == |s| && !v.ok)
  }

  lemma TailsTogether(s: Bytes, i: nat, d: Decoding, v: Validating, mask: int)
    requires Together(s, i, d, v)
    ensures Together(s, i, Tail(s, d, mask), CopyTail(s, v, mask))
  {
    var v' := CopyTail(s, v, mask);
    if v.next < |s| {
      assert v'.out[..v'.next - i] == v.out[..v.next - i] + [s[v.next]];
      assert s[i..v'.next] == s[i..v.next] + [s[v.next]];
    } else {
      assert v'.out[..v'.next - i] == v.out[..v.next - i];
    }
  }

  /** Validation has the verdict of decoding, stops where it stops, and has copied exactly
      the bytes that decoding consumes. */
  lemma ValidateLikeDecode(s: Bytes, i: nat)
    requires i < |s|
    ensures Together(s, i, Decode(s, i), Validate(s, i))
    ensures Validate(s, i).ok ==> Validate(s, i).out == s[i..Decode(s, i).next]
  {
    var lead := GetRange(s[i]);
    var d := Decoding(true, if lead >= 32 then 0 else s[i] % LeadModulus(lead), i + 1);
    var v := Validating(true, [s[i]], i + 1);
    var mask := match lead case 4 => 0x50 case 5 => 0x10 case 10 => 0x20 case 11 => 0x60 case _ => 0x70;
    TailsTogether(s, i, d, v, mask);
    var d1, v1 := Tail(s, d, mask), CopyTail(s, v, mask);
    TailsTogether(s, i, d1, v1, 0x70);
    TailsTogether(s, i, Tail(s, d1, 0x70), CopyTail(s, v1, 0x70), 0x70);
  }
}
