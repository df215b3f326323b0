/**
 StrPair: a string in the parse buffer, decoded in place when it is first asked for.  The
 read pointer `p` and the write pointer `q` are indices into one array.
 */
module XmlStrPair {
  import opened ByteStrings
  import opened XmlText

  /** From `from` on, the buffer still holds `s`, followed by a terminator. */
  ghost predicate Unwritten(buf: array<Byte>, start: nat, s: Bytes, from: nat)
    reads buf
  {
    && start + |s| < buf.Length && buf[start + |s|] == 0
    && forall i :: from <= i < |s| ==> buf[start + i] == s[i]
  }

  /** `strchr(q, ';')`. */
  method FindSemicolon(buf: array<Byte>, start: nat, ghost s: Bytes, from: nat) returns (r: Option<nat>)
    requires from <= |s| && Unwritten(buf, start, s, from)
    ensures r == Semicolon(s, from)
  {
    var q := from;
    while buf[start + q] != 0
      invariant from <= q <= |s| && Semicolon(s, q) == Semicolon(s, from)
      decreases |s| - q
    {
      if buf[start + q] == Ch(';') {
        return Some(q);
      }
      q := q + 1;
    }
    return None;
  }

  /** The digit loop, backwards from the semicolon; `mult` wraps at 32 bits. */
  method ReadDigits(buf: array<Byte>, start: nat, ghost s: Bytes, lo: nat, semi: nat, hex: bool) returns (r: Option<nat>)
    requires lo < semi <= |s| && Unwritten(buf, start, s, lo) && s[lo] == Mark(hex)
    ensures r == ReadBack(s, lo, semi, hex, 1, 0)
  {
    var q, mult, ucs := semi - 1, 1, 0;
    while buf[start + q] != Mark(hex)
      invariant lo <= q < semi && mult >= 0 && ucs >= 0
      invariant ReadBack(s, lo, q + 1, hex, mult, ucs) == ReadBack(s, lo, semi, hex, 1, 0)
      decreases q
    {
      var digit := Digit(buf[start + q], hex);
      if digit.None? {
        return None;
      }
      ucs := ucs + mult * digit.value % WIDTH;
      mult := mult * Base(hex) % WIDTH;
      q := q - 1;
    }
    return Some(ucs);
  }

  method GetCharacterRef(buf: array<Byte>, start: nat, ghost s: Bytes, p: nat) returns (r: Option<Piece>)
    requires p + 1 < |s| && s[p + 1] == Ch('#') && Unwritten(buf, start, s, p)
    ensures r == CharacterRef(s, p)
  {
    if buf[start + p + 2] == 0 {
      return Some(Copy([], p + 1));
    }
    var hex := buf[start + p + 2] == Ch('x');
    var lo := if hex then p + 2 else p + 1;
    var semi := FindSemicolon(buf, start, s, lo + 1);
    if semi.None? {
      return None;
    }
    var ucs := ReadDigits(buf, start, s, lo, semi.value, hex);
    return if ucs.None? then None else Some(Copy(ToUtf8(ucs.value), semi.value + 1));
  }

  /** `strncmp(p, pattern, length) == 0`. */
  method StartsWith(buf: array<Byte>, start: nat, ghost s: Bytes, p: nat, pattern: Bytes) returns (r: bool)
    requires p <= |s| && Unwritten(buf, start, s, p) && 0 !in pattern
    ensures r == Matches(s, p, pattern)
  {
    var k := 0;
    while k < |pattern|
      invariant 0 <= k <= |pattern| && p + k <= |s|
      invariant forall j :: 0 <= j < k ==> s[p + j] == pattern[j]
    {
      if buf[start + p + k] != pattern[k] {
        assert p + k < |s| ==> s[p + k] != pattern[k];
        return false;
      }
      assert pattern[k] in pattern;
      k := k + 1;
    }
    return true;
  }

  method LookUp(buf: array<Byte>, start: nat, ghost s: Bytes, p: nat) returns (r: Option<Entity>)
    requires p < |s| && Unwritten(buf, start, s, p)
    ensures r == FindEntity(s, p, 0)
  {
    var i := 0;
    while i < 5
      invariant 0 <= i <= 5 && FindEntity(s, p, i) == FindEntity(s, p, 0)
    {
      var entity := ENTITIES[i];
      var same := StartsWith(buf, start, s, p + 1, entity.pattern);
      if same && buf[start + p + 1 + |entity.pattern|] == Ch(';') {
        return Some(entity);
      }
      i := i + 1;
    }
    return None;
  }

  /** The branch taken at the read pointer. */
  method ReadPiece(buf: array<Byte>, start: nat, ghost s: Bytes, f: Needs, p: nat) returns (r: Piece)
    requires p < |s| && Unwritten(buf, start, s, p)
    ensures r == NextPiece(s, f, p)
  {
    hide CharacterRef, FindEntity;
    var c, d := buf[start + p], buf[start + p + 1];
    if f.newlines && c == CR {
      r := Copy([LF], if d == LF then p + 2 else p + 1);
    } else if f.newlines && c == LF {
      r := Copy([LF], if d == CR then p + 2 else p + 1);
    } else if f.entities && c == Ch('&') {
      if d == Ch('#') {
        var ref := GetCharacterRef(buf, start, s, p);
        r := if ref.None? then Copy([c], p + 1) else ref.value;
      } else {
        var entity := LookUp(buf, start, s, p);
        r := if entity.None? then Keep(p + 1) else Copy([entity.value.value], p + |entity.value.pattern| + 2);
      }
    } else {
      r := Copy([c], p + 1);
    }
  }

  /** memcpy of a few bytes. */
  method Put(buf: array<Byte>, at: nat, bytes: Bytes)
    requires at + |bytes| <= buf.Length
    modifies buf
    ensures forall i :: 0 <= i < buf.Length ==>
                          buf[i] == if at <= i < at + |bytes| then bytes[i - at] else old(buf[i])
  {
    var k := 0;
    while k < |bytes|
      invariant 0 <= k <= |bytes|
      invariant forall i :: 0 <= i < buf.Length ==>
                              buf[i] == if at <= i < at + k then bytes[i - at] else old(buf[i])
    {
      buf[at + k] := bytes[k];
      k := k + 1;
    }
  }

  /** One round of the loop of GetStr. */
  method Advance(buf: array<Byte>, start: nat, ghost s: Bytes, f: Needs, p: nat, q: nat) returns (p': nat, q': nat)
    requires q <= p < |s| && Unwritten(buf, start, s, q)
    modifies buf
    ensures q' <= p' <= |s| && p < p' && Unwritten(buf, start, s, q')
    ensures InPlace(s, f, p', buf[start..start + q']) == InPlace(s, f, p, old(buf[start..start + q]))
    ensures forall i :: 0 <= i < start || start + |s| < i < buf.Length ==> buf[i] == old(buf[i])
  {
    hide NextPiece;
    ghost var out := buf[start..start + q];
    var piece := ReadPiece(buf, start, s, f, p);
    match piece
    case Copy(bytes, next) =>
      Put(buf, start + q, bytes);
      p', q' := next, q + |bytes|;
      assert buf[start..start + q'] == out + bytes;
    case Keep(next) =>
      p', q' := next, q + 1;
      assert buf[start..start + q'] == out + [s[|out|]];
  }

  /** The loop of GetStr.  The write pointer never passes the read pointer, neither passes
      the end, and nothing outside the string and its terminator changes. */
  method DecodeInPlace(buf: array<Byte>, start: nat, end: nat, f: Needs) returns (len: nat)
    requires start <= end < buf.Length
    modifies buf
    ensures len <= end - start
    ensures buf[start..start + len] == Decoded(old(buf[start..end]), f) && buf[start + len] == 0
    ensures forall i :: 0 <= i < start || end < i < buf.Length ==> buf[i] == old(buf[i])
  {
    ghost var s := buf[start..end];
    buf[end] := 0;
    var p: nat, q: nat := 0, 0;
    assert buf[start..start + q] == [];
    while p < end - start
      invariant q <= p <= |s| == end - start
      invariant Unwritten(buf, start, s, q)
      invariant InPlace(s, f, p, buf[start..start + q]) == Decoded(s, f)
      invariant forall i :: 0 <= i < start || end < i < buf.Length ==> buf[i] == old(buf[i])
      decreases |s| - p
    {
      p, q := Advance(buf, start, s, f, p, q);
    }
    ghost var out := buf[start..start + q];
    buf[start + q] := 0;
    assert buf[start..start + q] == out;
    len := q;
  }

  method Skip(buf: array<Byte>, start: nat, ghost s: Bytes, from: nat) returns (j: nat)
    requires from <= |s| && Unwritten(buf, start, s, from)
    ensures j == SkipSpace(s, from)
  {
    j := from;
    while IsSpace(buf[start + j])
      invariant from <= j <= |s| && SkipSpace(s, j) == SkipSpace(s, from)
      decreases |s| - j
    {
      j := j + 1;
    }
  }

  /** The C string at `at` is `v`. */
  ghost predicate Holds(buf: array<Byte>, at: nat, v: Bytes)
    reads buf
  {
    at + |v| < buf.Length && buf[at..at + |v|] == v && buf[at + |v|] == 0
  }

  method ReadInk(buf: array<Byte>, start: nat, ghost s: Bytes, p: nat) returns (r: Piece)
    requires p < |s| && Unwritten(buf, start, s, p)
    ensures r == NextInk(s, p)
  {
    if !IsSpace(buf[start + p]) {
      return Copy([buf[start + p]], p + 1);
    }
    var j := Skip(buf, start, s, p);
    return if buf[start + j] == 0 then Copy([], j) else Copy([Ch(' '), buf[start + j]], j + 1);
  }

  /** One round of its loop: at most a space, and the byte that follows it. */
  method SqueezeOne(buf: array<Byte>, start: nat, ghost s: Bytes, first: nat, p: nat, q: nat) returns (p': nat, q': nat)
    requires first <= q <= p < |s| && Unwritten(buf, start, s, p) && s[p] != 0
    modifies buf
    ensures q <= q' <= p' <= |s| && p < p' && Unwritten(buf, start, s, p')
    ensures buf[start + first..start + q'] + Squeezed(s, p') == old(buf[start + first..start + q]) + Squeezed(s, p)
    ensures forall i :: 0 <= i < start || start + |s| < i < buf.Length ==> buf[i] == old(buf[i])
  {
    hide NextInk;
    ghost var out := buf[start + first..start + q];
    var piece := ReadInk(buf, start, s, p);
    Put(buf, start + q, piece.bytes);
    p', q' := piece.next, q + |piece.bytes|;
    assert buf[start + first..start + q'] == out + piece.bytes;
    Associates(out, piece.bytes, Squeezed(s, p'));
  }

  /** CollapseWhitespace: again two pointers in one buffer. */
  method Collapse(buf: array<Byte>, start: nat, len: nat) returns (at: nat, n: nat)
    requires start + len < buf.Length && buf[start + len] == 0
    modifies buf
    ensures start <= at && at + n <= start + len
    ensures Holds(buf, at, Collapsed(old(buf[start..start + len]))) && n == |Collapsed(old(buf[start..start + len]))|
    ensures forall i :: 0 <= i < start || start + len < i < buf.Length ==> buf[i] == old(buf[i])
  {
    ghost var s := buf[start..start + len];
    var first := Skip(buf, start, s, 0);
    var q := SqueezeAll(buf, start, s, first);
    at, n := start + first, q - first;
  }

  method SqueezeAll(buf: array<Byte>, start: nat, ghost s: Bytes, first: nat) returns (q: nat)
    requires first <= |s| && Unwritten(buf, start, s, first)
    modifies buf
    ensures q == first + |Squeezed(s, first)| && Holds(buf, start + first, Squeezed(s, first))
    ensures forall i :: 0 <= i < start || start + |s| < i < buf.Length ==> buf[i] == old(buf[i])
  {
    hide NextInk;
    var p: nat := first;
    q := first;
    assert buf[start + first..start + q] == [];
    while buf[start + p] != 0
      invariant first <= q <= p <= |s| && Unwritten(buf, start, s, p)
      invariant buf[start + first..start + q] + Squeezed(s, p) == Squeezed(s, first)
      invariant forall i :: 0 <= i < start || start + |s| < i < buf.Length ==> buf[i] == old(buf[i])
      decreases |s| - p
    {
      p, q := SqueezeOne(buf, start, s, first, p, q);
    }
    ghost var out := buf[start + first..start + q];
    assert out + [] == out;
    buf[start + q] := 0;
    assert buf[start + first..start + q] == out;
  }

  /** What a pair still needs; `flush` says that it was never asked for. */
  datatype Flags = Flags(flush: bool, needs: Needs, collapse: bool)

  /** The value of a pair that still has all its processing before it. */
  function Processed(s: Bytes, flags: Flags): Bytes
  {
    if flags.collapse then Collapsed(Decoded(s, flags.needs))
    else if flags.needs.entities || flags.needs.newlines then Decoded(s, flags.needs)
    else s
  }

  class StrPair {
    const buf: array<Byte>
    var start: nat
    var end: nat
    var flags: Flags

    /** StrPair::Set. */
    constructor (buf: array<Byte>, start: nat, end: nat, needs: Needs, collapse: bool)
      requires start <= end < buf.Length
      ensures this.buf == buf && this.start == start && this.end == end && flags == Flags(true, needs, collapse)
    {
      this.buf, this.start, this.end, this.flags := buf, start, end, Flags(true, needs, collapse);
    }

    /** The first call decodes in place and forgets the flags; later calls change nothing. */
    method GetStr() returns (at: nat)
      requires start <= end < buf.Length
      modifies this, buf
      ensures at == start && old(start) <= start <= end == old(end)
      ensures old(flags.flush) ==>
                && Holds(buf, at, Processed(old(buf[start..end]), old(flags)))
                && flags == Flags(false, Needs(false, false), false)
                && forall i :: 0 <= i < old(start) || end < i < buf.Length ==> buf[i] == old(buf[i])
      ensures !old(flags.flush) ==> start == old(start) && flags == old(flags) && buf[..] == old(buf[..])
    {
      if flags.flush {
        ghost var s := buf[start..end];
        buf[end] := 0;
        assert buf[start..end] == s;
        if flags.needs.entities || flags.needs.newlines || flags.collapse {
          var len := DecodeInPlace(buf, start, end, flags.needs);
          if flags.collapse {
            var n: nat;
            start, n := Collapse(buf, start, len);
          }
        }
        flags := Flags(false, Needs(false, false), false);
      }
      at := start;
    }
  }
}
