/**
 The leaves of the JSON reader: white space and comments, strings, literals and numbers.
 The text is a byte string; reading at its end yields 0, the terminator of a C string.
 */
module JsonLexer {
  import opened ByteStrings
  import opened Utf8

  /** The parse flags that change what is accepted. */
  datatype Flags = Flags(comments: bool, trailingCommas: bool, stopWhenDone: bool, validate: bool)

  datatype Event =
    | NullEvent
    | BoolEvent(b: bool)
    | IntEvent(i: int)
    | UintEvent(u: nat)
    | Int64Event(i: int)
    | Uint64Event(u: nat)
    | DoubleEvent(minus: bool, significand: nat, exponent: int)    // before rounding to a double
    | StringEvent(str: Bytes)
    | KeyEvent(str: Bytes)
    | StartObject
    | EndObject(memberCount: nat)
    | StartArray
    | EndArray(elementCount: nat)
    | StrayEvent    // a string or a name whose bytes lie past the string that was read

  /** What a leaf yields, and where reading goes on. */
  datatype Lexed<+T> = Bad | Good(value: T, next: nat)

  // ---- White space and comments ----

  predicate IsSpace(c: Byte) { c == Ch(' ') || c == Ch('\n') || c == Ch('\r') || c == Ch('\t') }

  function SkipSpace(s: Bytes, i: nat): (j: nat)
    requires i <= |s|
    ensures i <= j <= |s| && !IsSpace(Peek(s, j))
    decreases |s| - i
  {
    if IsSpace(Peek(s, i)) then SkipSpace(s, i + 1) else i
  }

  /** The position after the first star-slash at or after `i`. */
  function BlockEnd(s: Bytes, i: nat): (r: Option<nat>)
    requires i <= |s|
    ensures r.Some? ==> i < r.value <= |s|
    decreases |s| - i
  {
    if Peek(s, i) == 0 then None
    else if s[i] == Ch('*') && Peek(s, i + 1) == Ch('/') then Some(i + 2)
    else BlockEnd(s, i + 1)
  }

  function LineEnd(s: Bytes, i: nat): (j: nat)
    requires i <= |s|
    ensures i <= j <= |s|
    decreases |s| - i
  {
    if Peek(s, i) == 0 then i
    else if s[i] == Ch('\n') then i + 1
    else LineEnd(s, i + 1)
  }

  /** White space and, if allowed, comments; None for a malformed comment. */
  function Skip(s: Bytes, f: Flags, i: nat): (r: Option<nat>)
    requires i <= |s|
    ensures r.Some? ==> i <= r.value <= |s|
    decreases |s| - i
  {
    var j := SkipSpace(s, i);
    if !f.comments || Peek(s, j) != Ch('/') then Some(j)
    else if Peek(s, j + 1) == Ch('*') then
      match BlockEnd(s, j + 2)
      case None => None
      case Some(k) => Skip(s, f, k)
    else if Peek(s, j + 1) == Ch('/') then Skip(s, f, LineEnd(s, j + 2))
    else None
  }

  lemma NoSkip(s: Bytes, f: Flags, i: nat)
    requires i <= |s| && !IsSpace(Peek(s, i)) && Peek(s, i) != Ch('/')
    ensures Skip(s, f, i) == Some(i)
  {
    assert SkipSpace(s, i) == i;
  }

  // ---- Strings ----

  function Hex4(s: Bytes, i: nat): (r: Option<nat>)
    ensures r.Some? ==> r.value <= 0xFFFF && i + 4 <= |s|
  {
    match (HexDigit(Peek(s, i)), HexDigit(Peek(s, i + 1)), HexDigit(Peek(s, i + 2)), HexDigit(Peek(s, i + 3)))
    case (Some(a), Some(b), Some(c), Some(d)) => Some(a * 4096 + b * 256 + c * 16 + d)
    case _ => None
  }

  /** The escape table: 0 where the character does not name an escape. */
  function Unescape(e: Byte): Byte
  {
    if e == Ch('"') || e == Ch('/') || e == Ch('\\') then e
    else if e == Ch('b') then 8
    else if e == Ch('f') then 12
    else if e == Ch('n') then 10
    else if e == Ch('r') then 13
    else if e == Ch('t') then 9
    else 0
  }

  /** One step inside a string: the bytes a piece of text stands for. */
  function StringPiece(s: Bytes, f: Flags, i: nat): (r: Lexed<Bytes>)
    requires i < |s| && s[i] != Ch('"')
    ensures r.Good? ==> i < r.next <= |s|
  {
    var c := s[i];
    if c == Ch('\\') then
      var e := Peek(s, i + 1);
      if Unescape(e) != 0 then Good([Unescape(e)], i + 2)
      else if e != Ch('u') then Bad
      else
        match Hex4(s, i + 2)
        case None => Bad
        case Some(cp) =>
          if 0xD800 <= cp <= 0xDBFF then
            if Peek(s, i + 6) != Ch('\\') || Peek(s, i + 7) != Ch('u') then Bad
            else
              match Hex4(s, i + 8)
              case None => Bad
              case Some(cp2) =>
                if cp2 < 0xDC00 || cp2 > 0xDFFF then Bad
                else Good(Encode((cp - 0xD800) * 1024 + (cp2 - 0xDC00) + 0x10000), i + 12)
          else Good(Encode(cp), i + 6)
    else if c < 0x20 then Bad
    else if f.validate then
      ValidateLikeDecode(s, i);
      DecodeAdvances(s, i);
      var v := Validate(s, i);
      if v.ok then Good(v.out, v.next) else Bad
    else Good([c], i + 1)
  }

  /** The rest of a string, up to and with its closing quote. */
  function StringRest(s: Bytes, f: Flags, i: nat): (r: Lexed<Bytes>)
    requires i <= |s|
    ensures r.Good? ==> i < r.next <= |s|
    decreases |s| - i
  {
    if i == |s| then Bad
    else if s[i] == Ch('"') then Good([], i + 1)
    else
      match StringPiece(s, f, i)
      case Bad => Bad
      case Good(piece, j) =>
        match StringRest(s, f, j)
        case Bad => Bad
        case Good(rest, k) => Good(piece + rest, k)
  }

  /** The loop of ParseStringToStream: `i` is just after the opening quote. */
  method ParseString(s: Bytes, f: Flags, i: nat) returns (r: Lexed<Bytes>)
    requires i <= |s|
    ensures r == StringRest(s, f, i)
  {
    var pos, out := i, [];
    assert StringRest(s, f, i).Good? ==> out + StringRest(s, f, i).value == StringRest(s, f, i).value;
    while pos < |s| && s[pos] != Ch('"')
      invariant i <= pos <= |s|
      invariant match StringRest(s, f, pos)
                case Bad => StringRest(s, f, i) == Bad
                case Good(rest, k) => StringRest(s, f, i) == Good(out + rest, k)
      decreases |s| - pos
    {
      var piece := StringPiece(s, f, pos);
      if piece.Bad? {
        return Bad;
      }
      assert StringRest(s, f, piece.next).Good? ==>
               out + (piece.value + StringRest(s, f, piece.next).value)
               == (out + piece.value) + StringRest(s, f, piece.next).value;
      pos, out := piece.next, out + piece.value;
    }
    if pos == |s| {
      return Bad;
    }
    assert out + [] == out;
    return Good(out, pos + 1);
  }

  // ---- From the stack to the handler ----

  /** `length_` of StackStream, which is 32-bit: a string and its terminator. */
  function PopLength(str: Bytes): nat { (|str| + 1) % WIDTH }

  /** Strings whose length does not wrap. */
  predicate Brief(str: Bytes) { |str| + 1 < WIDTH }

  /** What stays on the stack when `length_` bytes are popped. */
  function Kept(str: Bytes): (r: Bytes)
    ensures Brief(str) <==> r == []
  {
    (str + [0])[..|str| + 1 - PopLength(str)]
  }

  /** What a handler is handed for a string: the popped bytes without the terminator.  If
      `length_` has wrapped to 0, the pointer is past the string and its length is 2^32 - 1. */
  function Handed(e: Event): Event
  {
    if !(e.StringEvent? || e.KeyEvent?) then e
    else if PopLength(e.str) == 0 then StrayEvent
    else
      var str := e.str[|Kept(e.str)|..];
      if e.KeyEvent? then KeyEvent(str) else StringEvent(str)
  }

  /** The strings of an event are whole when they reach the handler. */
  predicate BriefEvent(e: Event) { e.StringEvent? || e.KeyEvent? ==> Brief(e.str) }

  lemma HandedIff(e: Event)
    ensures Handed(e) == e <==> BriefEvent(e)
  {
  }

  /** The calls that a handler gets for the events read. */
  function Told(events: seq<Event>): (r: seq<Event>)
    ensures |r| == |events|
  {
    seq(|events|, i requires 0 <= i < |events| => Handed(events[i]))
  }

  lemma ToldAppend(a: seq<Event>, b: seq<Event>)
    ensures Told(a + b) == Told(a) + Told(b)
  {
  }

  lemma ToldOne(e: Event)
    ensures Told([e]) == [Handed(e)]
  {
  }

  predicate AllBrief(events: seq<Event>) { forall e <- events :: BriefEvent(e) }

  lemma AllBriefAppend(a: seq<Event>, b: seq<Event>)
    ensures AllBrief(a + b) <==> AllBrief(a) && AllBrief(b)
  {
    if AllBrief(a + b) {
      assert forall e <- a :: e in a + b;
      assert forall e <- b :: e in a + b;
    }
  }

  /** Brief strings reach the handler as they were read, and only those do. */
  lemma ToldIff(events: seq<Event>)
    ensures Told(events) == events <==> AllBrief(events)
  {
    forall i | 0 <= i < |events|
      ensures Told(events)[i] == events[i] <==> BriefEvent(events[i])
    {
      HandedIff(events[i]);
    }
    if Told(events) == events {
      forall e <- events
        ensures BriefEvent(e)
      {
        var i :| 0 <= i < |events| && events[i] == e;
        assert Told(events)[i] == events[i];
      }
    }
  }

  // ---- Numbers ----

  function DigitsEnd(s: Bytes, i: nat): (j: nat)
    requires i <= |s|
    ensures i <= j <= |s| && !IsDigit(Peek(s, j)) && forall k :: i <= k < j ==> IsDigit(s[k])
    decreases |s| - i
  {
    if IsDigit(Peek(s, i)) then DigitsEnd(s, i + 1) else i
  }

  /** The number that the digits from `i` to `j` write. */
  function Decimal(s: Bytes, i: nat, j: nat): nat
    requires i <= j <= |s| && forall k :: i <= k < j ==> IsDigit(s[k])
    decreases j
  {
    if i == j then 0
    else
      assert IsDigit(s[j - 1]);
      10 * Decimal(s, i, j - 1) + (s[j - 1] - Ch('0'))
  }

  function Pow10(n: nat): nat { if n == 0 then 1 else 10 * Pow10(n - 1) }

  /** The largest magnitudes that the 32-bit and the 64-bit accumulator may hold. */
  function Limit32(minus: bool): nat { if minus then 0x8000_0000 else 0xFFFF_FFFF }
  function Limit64(minus: bool): nat { if minus then 0x8000_0000_0000_0000 else 0xFFFF_FFFF_FFFF_FFFF }

  const DBL_MAX_ZEROS: nat := 291

  /** DBL_MAX / 10: one more digit after this is an error. */
  function TooBig(): nat { 17976931348623157 * Pow10(DBL_MAX_ZEROS) }

  datatype Integer = Integer(minus: bool, value: nat, digits: nat)

  /** The integer part of a number: an optional minus, then 0 or a digit run without a leading 0. */
  function LexInteger(s: Bytes, i: nat): (r: Lexed<Integer>)
    requires i <= |s|
    ensures r.Good? ==> i < r.next <= |s| && r.value.digits > 0
  {
    var minus := Peek(s, i) == Ch('-');
    var j := if minus then i + 1 else i;
    if Peek(s, j) == Ch('0') then Good(Integer(minus, 0, 1), j + 1)
    else if !IsDigit(Peek(s, j)) then Bad
    else
      var k := DigitsEnd(s, j);
      var v := Decimal(s, j, k);
      if v > Limit64(minus) && v / 10 >= TooBig() then Bad else Good(Integer(minus, v, k - j), k)
  }

  /** A significand under construction: `digits` counts its significant digits. */
  datatype Significand = Significand(value: nat, digits: nat, expFrac: int, next: nat)

  /** Fraction digits while the significand fits 53 bits. */
  function FastFraction(s: Bytes, g: Significand): (r: Significand)
    requires g.next <= |s|
    ensures g.next <= r.next <= |s|
    decreases |s| - g.next
  {
    if !IsDigit(Peek(s, g.next)) || g.value > 0x1F_FFFF_FFFF_FFFF then g
    else
      var v := g.value * 10 + (s[g.next] - Ch('0'));
      FastFraction(s, Significand(v, if v != 0 then g.digits + 1 else g.digits, g.expFrac - 1, g.next + 1))
  }

  /** The other fraction digits: those after 17 significant ones are read and ignored. */
  function SlowFraction(s: Bytes, g: Significand): (r: Significand)
    requires g.next <= |s|
    ensures g.next <= r.next <= |s|
    decreases |s| - g.next
  {
    if !IsDigit(Peek(s, g.next)) then g
    else if g.digits >= 17 then SlowFraction(s, g.(next := g.next + 1))
    else
      var v := g.value * 10 + (s[g.next] - Ch('0'));
      SlowFraction(s, Significand(v, if v > 0 then g.digits + 1 else g.digits, g.expFrac - 1, g.next + 1))
  }

  /** Exponent digits after the first.  A negative exponent stops growing, a positive one
      must stay within `maxExp`. */
  function ExponentRest(s: Bytes, minus: bool, maxExp: int, exp: nat, i: nat): (r: Lexed<nat>)
    requires i <= |s|
    ensures r.Good? ==> i <= r.next <= |s|
    decreases |s| - i
  {
    if !IsDigit(Peek(s, i)) then Good(exp, i)
    else
      var e := exp * 10 + (s[i] - Ch('0'));
      if minus && e >= 214748364 then Good(e, DigitsEnd(s, i + 1))
      else if !minus && e > maxExp then Bad
      else ExponentRest(s, minus, maxExp, e, i + 1)
  }

  function Exponent(s: Bytes, expFrac: int, i: nat): (r: Lexed<int>)
    requires i <= |s|
    ensures r.Good? ==> i <= r.next <= |s|
  {
    var minus := Peek(s, i) == Ch('-');
    var j := if minus || Peek(s, i) == Ch('+') then i + 1 else i;
    if !IsDigit(Peek(s, j)) then Bad
    else
      match ExponentRest(s, minus, 308 - expFrac, s[j] - Ch('0'), j + 1)
      case Bad => Bad
      case Good(e, k) => Good(if minus then 0 - e else e, k)
  }

  /** The event for an integer in range: the narrowest of the four integer events. */
  function IntegerEvent(minus: bool, v: nat): Event
  {
    if v <= Limit32(minus) then (if minus then IntEvent(0 - v) else UintEvent(v))
    else (if minus then Int64Event(0 - v) else Uint64Event(v))
  }

  function LexNumber(s: Bytes, i: nat): (r: Lexed<Event>)
    requires i <= |s|
    ensures r.Good? ==> i < r.next <= |s|
  {
    match LexInteger(s, i)
    case Bad => Bad
    case Good(n, j) =>
      var big := n.value > Limit64(n.minus);
      var dot := Peek(s, j) == Ch('.');
      if dot && !IsDigit(Peek(s, j + 1)) then Bad
      else
        var g0 := Significand(n.value, n.digits - 1, 0, if dot then j + 1 else j);
        var g := if !dot then g0 else SlowFraction(s, if big then g0.(digits := 17) else FastFraction(s, g0));
        var e := Peek(s, g.next) == Ch('e') || Peek(s, g.next) == Ch('E');
        match if e then Exponent(s, g.expFrac, g.next + 1) else Good(0, g.next)
        case Bad => Bad
        case Good(exp, k) =>
          if dot || e || big then Good(DoubleEvent(n.minus, g.value, exp + g.expFrac), k)
          else Good(IntegerEvent(n.minus, n.value), k)
  }

  // ---- The bounded accumulators of ParseNumber ----

  newtype u32 = x: int | 0 <= x < 0x1_0000_0000
  newtype u64 = x: int | 0 <= x < 0x1_0000_0000_0000_0000

  /** Which of `i`, `i64` and `d` holds the digits read. */
  datatype Scanned = Scanned(minus: bool, use64bit: bool, useDouble: bool, i: u32, i64: u64, d: nat)

  lemma DecimalStep(s: Bytes, i: nat, j: nat)
    requires i <= j < |s| && IsDigit(s[j]) && forall k :: i <= k < j ==> IsDigit(s[k])
    ensures Decimal(s, i, j + 1) == 10 * Decimal(s, i, j) + (s[j] - Ch('0'))
  {
  }

  lemma {:induction false} DecimalGrows(s: Bytes, i: nat, j: nat, k: nat)
    requires i <= j <= k <= |s| && forall k' :: i <= k' < k ==> IsDigit(s[k'])
    ensures Decimal(s, i, j) <= Decimal(s, i, k)
    ensures j < k ==> Decimal(s, i, j) <= Decimal(s, i, k) / 10
    decreases k - j
  {
    if j < k {
      DecimalGrows(s, i, j, k - 1);
    }
  }

  /** The digit loop of a 32-bit accumulator: it stops at the end of the digits, or before
      the digit that would not fit. */
  method Scan32(s: Bytes, minus: bool, start: nat) returns (i: u32, pos: nat, use64bit: bool)
    requires start < |s| && IsDigit(s[start]) && s[start] != Ch('0')
    ensures start < pos <= DigitsEnd(s, start)
    ensures i as int == Decimal(s, start, pos) <= Limit32(minus)
    ensures !use64bit ==> pos == DigitsEnd(s, start)
    ensures use64bit ==> pos < DigitsEnd(s, start) && Decimal(s, start, pos + 1) > Limit32(minus)
  {
    var last: u32 := if minus then 214748364 else 429496729;
    var digit := if minus then Ch('8') else Ch('5');
    DecimalStep(s, start, start);
    i, pos, use64bit := (s[start] - Ch('0')) as u32, start + 1, false;
    while IsDigit(Peek(s, pos))
      invariant start < pos <= DigitsEnd(s, start)
      invariant i as int == Decimal(s, start, pos) && i as int <= Limit32(minus)
      decreases |s| - pos
    {
      DecimalStep(s, start, pos);
      if i >= last && (i != last || s[pos] > digit) {
        use64bit := true;
        return;
      }
      i, pos := i * 10 + (s[pos] - Ch('0')) as u32, pos + 1;
    }
  }

  /** The same loop on a 64-bit accumulator, from where the first one stopped. */
  method Scan64(s: Bytes, minus: bool, start: nat, from: nat, i: u64) returns (i64: u64, pos: nat, useDouble: bool)
    requires start < |s| && start < from < DigitsEnd(s, start)
    requires i as int == Decimal(s, start, from) && i as int <= Limit32(minus)
    ensures from <= pos <= DigitsEnd(s, start)
    ensures i64 as int == Decimal(s, start, pos) <= Limit64(minus)
    ensures !useDouble ==> pos == DigitsEnd(s, start)
    ensures useDouble ==> pos < DigitsEnd(s, start) && Decimal(s, start, pos + 1) > Limit64(minus)
  {
    var last: u64 := if minus then 0x0CCC_CCCC_CCCC_CCCC else 0x1999_9999_9999_9999;
    var digit := if minus then Ch('8') else Ch('5');
    i64, pos, useDouble := i, from, false;
    while IsDigit(Peek(s, pos))
      invariant from <= pos <= DigitsEnd(s, start)
      invariant i64 as int == Decimal(s, start, pos) && i64 as int <= Limit64(minus)
      decreases |s| - pos
    {
      DecimalStep(s, start, pos);
      if i64 >= last && (i64 != last || s[pos] > digit) {
        useDouble := true;
        return;
      }
      i64, pos := i64 * 10 + (s[pos] - Ch('0')) as u64, pos + 1;
    }
  }

  /** The digits of a big integer: `d` is checked before each further digit. */
  method ScanDouble(s: Bytes, start: nat, from: nat, v: nat) returns (d: nat, ok: bool)
    requires start < |s| && start < from < DigitsEnd(s, start) && v == Decimal(s, start, from)
    ensures ok <==> Decimal(s, start, DigitsEnd(s, start)) / 10 < TooBig()
    ensures ok ==> d == Decimal(s, start, DigitsEnd(s, start))
  {
    var end, p := DigitsEnd(s, start), from;
    d := v;
    while IsDigit(Peek(s, p))
      invariant from <= p <= end && d == Decimal(s, start, p)
      invariant p > from ==> Decimal(s, start, p - 1) < TooBig()
      decreases |s| - p
    {
      DecimalStep(s, start, p);
      if d >= TooBig() {
        DecimalGrows(s, start, p, end);
        return d, false;
      }
      d, p := d * 10 + (s[p] - Ch('0')), p + 1;
    }
    ok := true;
  }

  /** `sc` holds `v` exactly, in the narrowest accumulator that can. */
  predicate Holds(sc: Scanned, v: nat)
  {
    && (sc.use64bit <==> v > Limit32(sc.minus))
    && (sc.useDouble <==> v > Limit64(sc.minus))
    && v == if sc.useDouble then sc.d else if sc.use64bit then sc.i64 as int else sc.i as int
  }

  /** The three digit loops in a row. */
  method ParseDigits(s: Bytes, minus: bool, start: nat) returns (sc: Scanned, ok: bool)
    requires start < |s| && IsDigit(s[start]) && s[start] != Ch('0')
    ensures var v := Decimal(s, start, DigitsEnd(s, start));
            && (ok <==> v <= Limit64(minus) || v / 10 < TooBig())
            && (ok ==> sc.minus == minus && Holds(sc, v))
  {
    var i, pos, use64bit := Scan32(s, minus, start);
    ok := true;
    if !use64bit {
      sc := Scanned(minus, false, false, i, 0, 0);
    } else {
      DecimalGrows(s, start, pos + 1, DigitsEnd(s, start));
      var i64, pos64, useDouble := Scan64(s, minus, start, pos, i as u64);
      if !useDouble {
        sc := Scanned(minus, true, false, i, i64, 0);
      } else {
        DecimalGrows(s, start, pos64 + 1, DigitsEnd(s, start));
        var d, small := ScanDouble(s, start, pos64, i64 as int);
        sc, ok := Scanned(minus, true, true, i, i64, d), small;
      }
    }
  }

  /** The integer part of ParseNumber.  No accumulator ever wraps; the digits are held
      exactly, by the narrowest accumulator that can, and by the double only when they are
      outside the 64-bit range of their sign. */
  method ParseInteger(s: Bytes, at: nat) returns (r: Lexed<Scanned>)
    requires at <= |s|
    ensures match LexInteger(s, at)
            case Bad => r.Bad?
            case Good(n, next) =>
              r.Good? && r.next == next && r.value.minus == n.minus && Holds(r.value, n.value)
  {
    var minus := Peek(s, at) == Ch('-');
    var start := if minus then at + 1 else at;
    if Peek(s, start) == Ch('0') {
      return Good(Scanned(minus, false, false, 0, 0, 0), start + 1);
    }
    if !IsDigit(Peek(s, start)) {
      return Bad;
    }
    var sc, ok := ParseDigits(s, minus, start);
    return if ok then Good(sc, DigitsEnd(s, start)) else Bad;
  }

  /** `static_cast<int32_t>(~i + 1)` and its 64-bit twin: two's complement negation. */
  function Negate(i: nat, width: nat): int
    requires i < width
  {
    var t := if i == 0 then 0 else width - i;
    if t < width / 2 then t else t - width
  }

  /** The last lines of ParseNumber: the event is that of the exact value. */
  method EmitInteger(sc: Scanned, ghost v: nat) returns (e: Event)
    requires Holds(sc, v) && !sc.useDouble
    ensures e == IntegerEvent(sc.minus, v)
  {
    if sc.use64bit {
      e := if sc.minus then Int64Event(Negate(sc.i64 as int, 0x1_0000_0000_0000_0000)) else Uint64Event(sc.i64 as int);
    } else {
      e := if sc.minus then IntEvent(Negate(sc.i as int, 0x1_0000_0000)) else UintEvent(sc.i as int);
    }
  }
}
