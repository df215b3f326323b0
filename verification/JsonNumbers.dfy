/**
 The number reader takes exactly the spellings of numbers, and reads each as its meaning, or
 refuses it as too big.
 */
module JsonNumbers {
  import opened ByteStrings
  import opened JsonLexer
  import opened JsonDocument
  import opened JsonSpelling

  // ---- Runs of digits ----

  lemma {:induction false} DigitsAre(s: Bytes, i: nat, d: Bytes)
    requires AllDigits(d) && Matches(s, i, d)
    ensures forall k :: i <= k < i + |d| ==> IsDigit(s[k])
    ensures Decimal(s, i, i + |d|) == NumberOf(d)
    decreases |d|
  {
    forall k | i <= k < i + |d|
      ensures IsDigit(s[k])
    {
      assert s[i + (k - i)] == d[k - i];
    }
    if d != [] {
      var n := |d| - 1;
      DigitsAre(s, i, d[..n]);
      assert s[i + n] == d[n];
    }
  }

  lemma {:induction false} DigitsStop(s: Bytes, i: nat, j: nat)
    requires i <= j <= |s| && !IsDigit(Peek(s, j)) && forall k :: i <= k < j ==> IsDigit(s[k])
    ensures DigitsEnd(s, i) == j
    decreases j - i
  {
    if i < j {
      DigitsStop(s, i + 1, j);
    }
  }

  /** A run of digits that ends where it ends. */
  lemma RunRead(s: Bytes, i: nat, d: Bytes)
    requires AllDigits(d) && Matches(s, i, d) && !IsDigit(Peek(s, i + |d|))
    ensures DigitsEnd(s, i) == i + |d| && Decimal(s, i, i + |d|) == NumberOf(d)
    ensures forall k :: i <= k < i + |d| ==> IsDigit(s[k])
  {
    DigitsAre(s, i, d);
    DigitsStop(s, i, i + |d|);
  }

  lemma RunSpelled(s: Bytes, i: nat, j: nat)
    requires i <= j <= |s| && forall k :: i <= k < j ==> IsDigit(s[k])
    ensures AllDigits(s[i..j]) && Matches(s, i, s[i..j]) && NumberOf(s[i..j]) == Decimal(s, i, j)
  {
    SliceMatches(s, i, j);
    DigitsAre(s, i, s[i..j]);
  }

  lemma NumberStep(d: Bytes, c: Byte)
    requires AllDigits(d) && 0x30 <= c <= 0x39
    ensures AllDigits(d + [c]) && NumberOf(d + [c]) == 10 * NumberOf(d) + (c - 0x30)
  {
    assert (d + [c])[..|d|] == d;
  }

  /** A number with a first digit other than 0 is at least a power of ten, and any is below one. */
  lemma {:induction false} NumberBounds(d: Bytes)
    requires AllDigits(d) && d != []
    ensures NumberOf(d) < Pow10(|d|)
    ensures d[0] != 0x30 ==> NumberOf(d) >= Pow10(|d| - 1)
    decreases |d|
  {
    var n := |d| - 1;
    assert Pow10(n + 1) == 10 * Pow10(n);
    if n > 0 {
      NumberBounds(d[..n]);
      assert Pow10(n) == 10 * Pow10(n - 1);
    } else {
      assert NumberOf(d[..0]) == 0 && Pow10(0) == 1;
    }
  }

  lemma {:induction false} PowerGrows(a: nat, b: nat)
    requires a <= b
    ensures Pow10(a) <= Pow10(b)
    decreases b
  {
    if a < b {
      PowerGrows(a, b - 1);
    }
  }

  // ---- The whole part ----

  lemma WholeZero(whole: Bytes)
    requires ValidWhole(whole)
    ensures NumberOf(whole) == 0 <==> whole == [0x30]
    ensures whole[0] == 0x30 ==> whole == [0x30]
  {
    NumberBounds(whole);
    PowerGrows(0, |whole| - 1);
    assert Pow10(0) == 1;
    if |whole| == 1 {
      assert whole == [whole[0]] && NumberOf(whole[..0]) == 0;
    }
  }

  lemma WholeRead(s: Bytes, i: nat, minus: bool, whole: Bytes)
    requires ValidWhole(whole)
    requires var j := if minus then i + 1 else i;
             && (minus ==> Peek(s, i) == Ch('-')) && Matches(s, j, whole)
             && (whole == [0x30] || !IsDigit(Peek(s, j + |whole|)))
    ensures var j := if minus then i + 1 else i;
            var w := NumberOf(whole);
            i <= |s| && LexInteger(s, i) == if w > Limit64(minus) && w / 10 >= TooBig() then Bad
                                            else Good(Integer(minus, w, |whole|), j + |whole|)
  {
    hide TooBig, NumberOf;
    var j := if minus then i + 1 else i;
    First(s, j, whole);
    WholeZero(whole);
    assert IsDigit(s[j]);
    if whole != [0x30] {
      RunRead(s, j, whole);
    }
  }

  // ---- The fraction ----

  /** The significant digits after the first `m` of the fraction, as the source counts them. */
  function Significant(whole: Bytes, fraction: Bytes, m: nat): nat
    requires whole != []
  {
    if whole != [0x30] then |whole| - 1 + m else if m > Zeros(fraction) then m - Zeros(fraction) else 0
  }

  /** The significand after `m` digits of the fraction. */
  function Partial(whole: Bytes, fraction: Bytes, m: nat, at: nat): Significand
    requires whole != [] && AllDigits(whole) && AllDigits(fraction) && m <= |fraction|
  {
    Significand(NumberOf(whole + fraction[..m]), Significant(whole, fraction, m), 0 - m, at + m)
  }

  lemma {:induction false} ZerosAre(d: Bytes)
    requires AllDigits(d)
    ensures forall k :: 0 <= k < Zeros(d) ==> d[k] == 0x30
    ensures Zeros(d) < |d| ==> d[Zeros(d)] != 0x30
    decreases |d|
  {
    if d != [] && d[0] == 0x30 {
      ZerosAre(d[1..]);
      forall k | 0 <= k < Zeros(d)
        ensures d[k] == 0x30
      {
        assert k > 0 ==> d[1..][k - 1] == d[k];
      }
      assert Zeros(d) < |d| ==> d[1..][Zeros(d) - 1] == d[Zeros(d)];
    }
  }

  /** The value is 0 exactly as long as there is no significant digit; with `k` of them it has
      at least as many. */
  predicate SizeOk(whole: Bytes, fraction: Bytes, m: nat, v: nat)
    requires whole != []
  {
    && (v == 0 <==> whole == [0x30] && m <= Zeros(fraction))
    && var k := Significant(whole, fraction, m); k > 0 ==> v >= Pow10(k - 1)
  }

  lemma {:induction false} PartialSize(whole: Bytes, fraction: Bytes, m: nat)
    requires ValidWhole(whole) && AllDigits(fraction) && m <= |fraction|
    ensures SizeOk(whole, fraction, m, NumberOf(whole + fraction[..m]))
    decreases m
  {
    hide SizeOk, NumberOf;
    if m == 0 {
      assert whole + fraction[..0] == whole;
      WholeSize(whole, fraction);
    } else {
      PartialSize(whole, fraction, m - 1);
      var before := whole + fraction[..m - 1];
      assert whole + fraction[..m] == before + [fraction[m - 1]];
      NumberStep(before, fraction[m - 1]);
      NextSize(whole, fraction, m - 1, NumberOf(before));
    }
  }

  lemma WholeSize(whole: Bytes, fraction: Bytes)
    requires ValidWhole(whole)
    ensures SizeOk(whole, fraction, 0, NumberOf(whole))
  {
    hide NumberOf;
    WholeZero(whole);
    if |whole| > 1 {
      NumberBounds(whole);
      PowerGrows(|whole| - 2, |whole| - 1);
    }
  }

  lemma NextSize(whole: Bytes, fraction: Bytes, m: nat, v: nat)
    requires ValidWhole(whole) && AllDigits(fraction) && m < |fraction| && SizeOk(whole, fraction, m, v)
    ensures SizeOk(whole, fraction, m + 1, 10 * v + (fraction[m] - 0x30))
  {
    hide Zeros;
    ZerosAre(fraction);
    var k := Significant(whole, fraction, m + 1);
    if k > 1 {
      assert Pow10(k - 1) == 10 * Pow10(k - 2);
    } else if k == 1 {
      assert Pow10(0) == 1;
    }
  }

  lemma PartialStep(whole: Bytes, fraction: Bytes, m: nat)
    requires ValidWhole(whole) && AllDigits(fraction) && m < |fraction|
    ensures NumberOf(whole + fraction[..m + 1]) == NumberOf(whole + fraction[..m]) * 10 + (fraction[m] - 0x30)
    ensures var v := NumberOf(whole + fraction[..m + 1]);
            Significant(whole, fraction, m + 1)
            == if v != 0 then Significant(whole, fraction, m) + 1 else Significant(whole, fraction, m)
  {
    hide Significant, Zeros, NumberOf;
    assert whole + fraction[..m + 1] == whole + fraction[..m] + [fraction[m]];
    NumberStep(whole + fraction[..m], fraction[m]);
    PartialSize(whole, fraction, m + 1);
    SignificantStep(whole, fraction, m);
  }

  lemma SignificantStep(whole: Bytes, fraction: Bytes, m: nat)
    requires whole != []
    ensures Significant(whole, fraction, m + 1)
            == if whole == [0x30] && m + 1 <= Zeros(fraction) then Significant(whole, fraction, m)
               else Significant(whole, fraction, m) + 1
  {
  }

  lemma CountedIs(whole: Bytes, fraction: Bytes, m: nat)
    requires ValidWhole(whole) && AllDigits(fraction) && m <= |fraction|
    ensures m < |fraction| && Significant(whole, fraction, m) < 17 ==> m < Counted(whole, fraction)
    ensures Significant(whole, fraction, m) >= 17 ==> m >= Counted(whole, fraction)
  {
    WholeZero(whole);
  }

  predicate FractionAt(s: Bytes, at: nat, whole: Bytes, fraction: Bytes)
  {
    && ValidWhole(whole) && AllDigits(fraction)
    && Matches(s, at, fraction) && !IsDigit(Peek(s, at + |fraction|))
  }

  /** Digits are taken as long as the significand fits 53 bits: never more than count. */
  lemma {:induction false} FastRead(s: Bytes, at: nat, whole: Bytes, fraction: Bytes, m: nat) returns (n: nat)
    requires FractionAt(s, at, whole, fraction) && m <= Counted(whole, fraction)
    ensures m <= n <= Counted(whole, fraction)
    ensures FastFraction(s, Partial(whole, fraction, m, at)) == Partial(whole, fraction, n, at)
    decreases |fraction| - m
  {
    hide NumberOf, Significant, Counted;
    var g := Partial(whole, fraction, m, at);
    n := m;
    if m < |fraction| {
      assert s[at + m] == fraction[m];
      if g.value <= 0x1F_FFFF_FFFF_FFFF {
        PartialSize(whole, fraction, m);
        SeventeenDigits(g.digits);
        CountedIs(whole, fraction, m);
        PartialStep(whole, fraction, m);
        n := FastRead(s, at, whole, fraction, m + 1);
      }
    }
  }

  lemma SeventeenDigits(k: nat)
    ensures k >= 17 ==> Pow10(k - 1) > 0x1F_FFFF_FFFF_FFFF
  {
    if k >= 17 {
      PowerGrows(16, k - 1);
      assert Pow10(4) == 10000;
      assert Pow10(8) == 1_0000_0000;
      assert Pow10(12) == 1_0000_0000_0000;
      assert Pow10(16) == 1_0000_0000_0000_0000;
    }
  }

  /** The other digits are taken until there are 17, and then skipped. */
  lemma {:induction false} SlowRead(s: Bytes, at: nat, whole: Bytes, fraction: Bytes, m: nat)
    requires FractionAt(s, at, whole, fraction) && m <= Counted(whole, fraction)
    ensures var k := Counted(whole, fraction);
            SlowFraction(s, Partial(whole, fraction, m, at))
            == Partial(whole, fraction, k, at).(next := at + |fraction|)
    decreases |fraction| - m
  {
    hide NumberOf, Significant, Counted;
    var g := Partial(whole, fraction, m, at);
    CountedIs(whole, fraction, m);
    if m < |fraction| {
      assert s[at + m] == fraction[m];
      if g.digits >= 17 {
        Skipped(s, g, at + |fraction|, at, fraction);
      } else {
        PartialStep(whole, fraction, m);
        SlowRead(s, at, whole, fraction, m + 1);
      }
    }
  }

  lemma {:induction false} Skipped(s: Bytes, g: Significand, end: nat, at: nat, fraction: Bytes)
    requires AllDigits(fraction) && Matches(s, at, fraction) && end == at + |fraction| && at <= g.next <= end
    requires g.digits >= 17 && !IsDigit(Peek(s, end))
    ensures SlowFraction(s, g) == g.(next := end)
    decreases end - g.next
  {
    if g.next < end {
      assert s[at + (g.next - at)] == fraction[g.next - at];
      Skipped(s, g.(next := g.next + 1), end, at, fraction);
    }
  }

  /** Both loops together, as they follow the whole part. */
  function BothLoops(s: Bytes, g: Significand, minus: bool): Significand
    requires g.next <= |s|
  {
    SlowFraction(s, if g.value > Limit64(minus) then g.(digits := 17) else FastFraction(s, g))
  }

  lemma FractionRead(s: Bytes, at: nat, whole: Bytes, fraction: Bytes, minus: bool)
    requires FractionAt(s, at, whole, fraction)
    ensures var w, k := NumberOf(whole), Counted(whole, fraction);
            var g0 := Significand(w, |whole| - 1, 0, at);
            && at <= |s|
            && (var g := BothLoops(s, g0, minus);
                && g.value == NumberOf(whole + fraction[..k]) && g.expFrac == 0 - k && g.next == at + |fraction|)
  {
    hide NumberOf, Counted, Significant, Zeros, FastFraction, SlowFraction;
    var w := NumberOf(whole);
    var g0 := Significand(w, |whole| - 1, 0, at);
    assert whole + fraction[..0] == whole;
    NoFraction(whole, fraction);
    if w > Limit64(minus) {
      BigWhole(whole, fraction);
      assert fraction[..0] == [];
      Skipped(s, g0.(digits := 17), at + |fraction|, at, fraction);
    } else {
      var n := FastRead(s, at, whole, fraction, 0);
      SlowRead(s, at, whole, fraction, n);
    }
  }

  lemma NoFraction(whole: Bytes, fraction: Bytes)
    requires ValidWhole(whole)
    ensures Significant(whole, fraction, 0) == |whole| - 1
  {
  }

  lemma BigWhole(whole: Bytes, fraction: Bytes)
    requires ValidWhole(whole) && NumberOf(whole) >= 0x8000_0000_0000_0000
    ensures Counted(whole, fraction) == 0
  {
    EighteenDigits();
    NumberBounds(whole);
    if |whole| < 18 {
      PowerGrows(|whole|, 18);
    }
  }

  lemma EighteenDigits()
    ensures Pow10(18) == 1_000_000_000_000_000_000
  {
    assert Pow10(6) == 1_000_000;
    assert Pow10(12) == 1_000_000_000_000;
  }

  // ---- The exponent ----

  lemma {:induction false} LimitedIs(d: Bytes)
    requires AllDigits(d)
    ensures NumberOf(d) < EXPONENT_LIMIT ==> Limited(d) == NumberOf(d)
    ensures NumberOf(d) >= EXPONENT_LIMIT ==> EXPONENT_LIMIT <= Limited(d) <= NumberOf(d)
    decreases |d|
  {
    if d != [] {
      LimitedIs(d[..|d| - 1]);
    }
  }

  lemma {:induction false} PrefixSmaller(d: Bytes, m: nat)
    requires AllDigits(d) && m <= |d|
    ensures NumberOf(d[..m]) <= NumberOf(d)
    ensures NumberOf(d[..m]) >= EXPONENT_LIMIT ==> Limited(d) == Limited(d[..m])
    decreases |d|
  {
    if m == |d| {
      assert d[..m] == d;
    } else {
      var e := d[..|d| - 1];
      PrefixSmaller(e, m);
      assert e[..m] == d[..m];
      LimitedIs(e);
      LimitedIs(d[..m]);
    }
  }

  lemma {:induction false} ExponentGoesOn(s: Bytes, minus: bool, maxExp: int, i: nat, d: Bytes, m: nat)
    requires AllDigits(d) && 0 < m <= |d| && Matches(s, i, d) && !IsDigit(Peek(s, i + |d|)) && maxExp >= 9
    requires if minus then NumberOf(d[..m]) < EXPONENT_LIMIT else NumberOf(d[..m]) <= maxExp
    ensures i + |d| <= |s|
    ensures ExponentRest(s, minus, maxExp, NumberOf(d[..m]), i + m)
            == if minus then Good(Limited(d), i + |d|) else if NumberOf(d) > maxExp then Bad else Good(NumberOf(d), i + |d|)
    decreases |d| - m
  {
    hide NumberOf, Limited;
    if m == |d| {
      assert d[..m] == d;
      LimitedIs(d);
    } else {
      assert s[i + m] == d[m] && d[..m + 1] == d[..m] + [d[m]];
      NumberStep(d[..m], d[m]);
      PrefixSmaller(d, m + 1);
      var e := NumberOf(d[..m + 1]);
      if minus && e >= EXPONENT_LIMIT {
        DigitsAre(s, i, d);
        DigitsStop(s, i + m + 1, i + |d|);
        LimitedNow(d[..m + 1]);
      } else if minus || e <= maxExp {
        ExponentGoesOn(s, minus, maxExp, i, d, m + 1);
      }
    }
  }

  lemma LimitedNow(d: Bytes)
    requires d != [] && AllDigits(d) && NumberOf(d[..|d| - 1]) < EXPONENT_LIMIT
    ensures Limited(d) == NumberOf(d)
  {
    LimitedIs(d[..|d| - 1]);
  }

  /** What stands between the letter and the digits. */
  function SignText(sign: Option<bool>): Bytes { if sign.None? then [] else if sign.value then [Ch('-')] else [Ch('+')] }

  lemma ExponentRead(s: Bytes, i: nat, sign: Option<bool>, d: Bytes, k: nat)
    requires AllDigits(d) && d != [] && Matches(s, i, SignText(sign) + d)
    requires !IsDigit(Peek(s, i + |SignText(sign) + d|))
    ensures i <= |s|
    ensures JsonLexer.Exponent(s, 0 - k, i)
            == if sign == Some(true) then Good(0 - Limited(d), i + |SignText(sign) + d|)
               else if NumberOf(d) > 308 + k then Bad
               else Good(NumberOf(d), i + |SignText(sign) + d|)
  {
    hide ExponentRest, Limited, NumberOf;
    MatchesSplit(s, i, SignText(sign), d);
    var j := i + |SignText(sign)|;
    First(s, j, d);
    if sign.Some? {
      First(s, i, SignText(sign));
    }
    assert d[..1] == [] + [d[0]];
    FirstDigit(d);
    ExponentGoesOn(s, sign == Some(true), 308 + k, j, d, 1);
  }

  lemma FirstDigit(d: Bytes)
    requires AllDigits(d) && d != []
    ensures NumberOf(d[..1]) == d[0] - 0x30
  {
    assert d[..1][..0] == [];
  }

  // ---- Numbers ----

  predicate Handles(e: Event, v: JValue) { Handle([], e) == Some([v]) }

  function DotText(fraction: Option<Bytes>): Bytes { if fraction.Some? then [Ch('.')] + fraction.value else [] }

  function PowerText(exponent: Option<JsonSpelling.Exponent>): Bytes
  {
    if exponent.Some? then ExponentText(exponent.value) else []
  }

  /** Where the parts of a number stand. */
  datatype Places = Places(whole: nat, fraction: nat, exponent: nat, end: nat)

  function PlacesOf(n: NumberText, i: nat): Places
  {
    var a := if n.minus then i + 1 else i;
    var b := a + |n.whole|;
    var c := b + |DotText(n.fraction)|;
    Places(a, b, c, c + |PowerText(n.exponent)|)
  }

  lemma PartsPlaced(s: Bytes, i: nat, n: NumberText)
    ensures PlacesOf(n, i).end == i + |NumberTextOf(n)|
    ensures Matches(s, i, NumberTextOf(n)) <==>
            var p := PlacesOf(n, i);
            && (n.minus ==> i < |s| && s[i] == Ch('-'))
            && Matches(s, p.whole, n.whole) && Matches(s, p.fraction, DotText(n.fraction)) && Matches(s, p.exponent, PowerText(n.exponent))
  {
    hide Matches;
    var minus := if n.minus then [Ch('-')] else [];
    var p := PlacesOf(n, i);
    MatchesSplit(s, i, minus, n.whole + (DotText(n.fraction) + PowerText(n.exponent)));
    MatchesSplit(s, p.whole, n.whole, DotText(n.fraction) + PowerText(n.exponent));
    MatchesSplit(s, p.fraction, DotText(n.fraction), PowerText(n.exponent));
    OneMatches(s, i, Ch('-'));
    if Matches(s, p.whole, n.whole) {
      NothingMatches(s, i, p.whole, n.whole);
    }
  }

  lemma NothingMatches(s: Bytes, i: nat, j: nat, w: Bytes)
    requires i <= j && Matches(s, j, w)
    ensures Matches(s, i, [])
  {
  }

  /** What comes after each part. */
  lemma PartsEnd(s: Bytes, i: nat, n: NumberText)
    requires ValidNumber(n) && Matches(s, i, NumberTextOf(n)) && NumberStops(n, Peek(s, i + |NumberTextOf(n)|))
    ensures var p := PlacesOf(n, i);
            && (n.whole == [0x30] || !IsDigit(Peek(s, p.fraction)))
            && (Peek(s, p.fraction) == Ch('.') <==> n.fraction.Some?)
            && !(n.fraction.Some? && IsDigit(Peek(s, p.exponent)))
            && (Peek(s, p.exponent) == Ch('e') || Peek(s, p.exponent) == Ch('E') <==> n.exponent.Some?)
            && !(n.exponent.Some? && IsDigit(Peek(s, p.end)))
            && (n.fraction.Some? ==> Matches(s, p.fraction + 1, n.fraction.value) && IsDigit(Peek(s, p.fraction + 1)))
            && (n.exponent.Some? ==>
                  Matches(s, p.exponent + 1, SignText(n.exponent.value.sign) + n.exponent.value.digits))
            && p.end <= |s|
  {
    hide Matches;
    var p := PlacesOf(n, i);
    PartsPlaced(s, i, n);
    if n.exponent.Some? {
      var e := n.exponent.value;
      var letter := if e.upper then Ch('E') else Ch('e');
      MatchesSplit(s, p.exponent, [letter], SignText(e.sign) + e.digits);
      First(s, p.exponent, PowerText(n.exponent));
    }
    if n.fraction.Some? {
      MatchesSplit(s, p.fraction, [Ch('.')], n.fraction.value);
      First(s, p.fraction, DotText(n.fraction));
      First(s, p.fraction + 1, n.fraction.value);
    }
    EndsInside(s, p.exponent, PowerText(n.exponent));
  }

  lemma EndsInside(s: Bytes, i: nat, w: Bytes)
    requires Matches(s, i, w)
    ensures i + |w| <= |s|
  {
  }

  /** The significand and the power of ten that the loops compute. */
  lemma SignificandRead(s: Bytes, i: nat, n: NumberText)
    requires ValidNumber(n) && Matches(s, i, NumberTextOf(n)) && NumberStops(n, Peek(s, i + |NumberTextOf(n)|))
    ensures var p := PlacesOf(n, i);
            p.fraction <= |s| && (n.fraction.Some? ==> p.fraction < |s|)
            && var g := AfterWhole(s, p.fraction, NumberOf(n.whole), |n.whole|, n.minus, n.fraction.Some?);
               g.value == SignificandOf(n) && g.expFrac == 0 - Counted(n.whole, FractionOf(n)) && g.next == p.exponent
  {
    hide Matches, NumberOf, Counted, BothLoops, NumberStops, NumberTextOf;
    PartsEnd(s, i, n);
    var p := PlacesOf(n, i);
    if n.fraction.Some? {
      FractionRead(s, p.fraction + 1, n.whole, n.fraction.value, n.minus);
    } else {
      assert n.whole + FractionOf(n)[..0] == n.whole;
    }
  }

  /** The significand after the whole part, with or without a fraction. */
  function AfterWhole(s: Bytes, j: nat, w: nat, digits: nat, minus: bool, dot: bool): Significand
    requires j <= |s| && digits > 0 && (dot ==> j < |s|)
  {
    if dot then BothLoops(s, Significand(w, digits - 1, 0, j + 1), minus) else Significand(w, digits - 1, 0, j)
  }

  /** The steps of ParseNumber. */
  lemma Assembled(s: Bytes, i: nat, n: Integer, j: nat)
    requires i <= |s| && LexInteger(s, i) == Good(n, j) && n.digits > 0 && j <= |s|
    requires Peek(s, j) == Ch('.') ==> IsDigit(Peek(s, j + 1))
    ensures var dot := Peek(s, j) == Ch('.');
            var g := AfterWhole(s, j, n.value, n.digits, n.minus, dot);
            && g.next <= |s|
            && if Peek(s, g.next) == Ch('e') || Peek(s, g.next) == Ch('E') then
                 LexNumber(s, i) == match JsonLexer.Exponent(s, g.expFrac, g.next + 1)
                                    case Bad => Bad
                                    case Good(e, next) => Good(DoubleEvent(n.minus, g.value, e + g.expFrac), next)
               else if dot || n.value > Limit64(n.minus) then
                 LexNumber(s, i) == Good(DoubleEvent(n.minus, g.value, g.expFrac), g.next)
               else LexNumber(s, i) == Good(IntegerEvent(n.minus, n.value), g.next)
  {
    hide LexInteger, FastFraction, SlowFraction, JsonLexer.Exponent;
  }

  /** Every spelling of a number, followed by something that does not make it longer, is read as
      its meaning, or refused if it is too big. */
  lemma NumberRead(s: Bytes, i: nat, n: NumberText)
    requires ValidNumber(n) && Matches(s, i, NumberTextOf(n)) && NumberStops(n, Peek(s, i + |NumberTextOf(n)|))
    ensures i <= |s|
    ensures match NumberMeaning(n)
            case None => LexNumber(s, i) == Bad
            case Some(v) =>
              && LexNumber(s, i).Good? && LexNumber(s, i).next == i + |NumberTextOf(n)|
              && Handles(LexNumber(s, i).value, v)
  {
    hide NumberTextOf, Matches, NumberStops, NumberOf, TooBig, LexInteger, Handles, LexNumber, NumberMeaning, Limit64;
    var p, w := PlacesOf(n, i), NumberOf(n.whole);
    PartsPlaced(s, i, n);
    PartsEnd(s, i, n);
    WholeRead(s, i, n.minus, n.whole);
    if w > Limit64(n.minus) && w / 10 >= TooBig() {
      WholeTooBig(s, i);
      BigMeaning(n);
    } else if n.exponent.Some? {
      PowerRead(s, i, n);
    } else {
      PlainRead(s, i, n);
    }
  }

  lemma BigMeaning(n: NumberText)
    requires ValidNumber(n) && NumberOf(n.whole) > Limit64(n.minus) && NumberOf(n.whole) / 10 >= TooBig()
    ensures NumberMeaning(n) == None
  {
    hide NumberOf, TooBig, Counted;
  }

  /** The whole part has been read, and is not too big. */
  predicate WholeDone(s: Bytes, i: nat, n: NumberText)
  {
    && ValidNumber(n) && Matches(s, i, NumberTextOf(n)) && NumberStops(n, Peek(s, i + |NumberTextOf(n)|)) && i <= |s|
    && LexInteger(s, i) == Good(Integer(n.minus, NumberOf(n.whole), |n.whole|), PlacesOf(n, i).fraction)
    && (NumberOf(n.whole) <= Limit64(n.minus) || NumberOf(n.whole) / 10 < TooBig())
  }

  lemma PowerRead(s: Bytes, i: nat, n: NumberText)
    requires WholeDone(s, i, n) && n.exponent.Some?
    ensures match NumberMeaning(n)
            case None => LexNumber(s, i) == Bad
            case Some(v) =>
              && LexNumber(s, i).Good? && LexNumber(s, i).next == i + |NumberTextOf(n)|
              && Handles(LexNumber(s, i).value, v)
  {
    hide NumberTextOf, Matches, NumberStops, NumberOf, Counted, TooBig, LexInteger, SignificandOf, Handles, AfterWhole;
    hide LexNumber, JsonLexer.Exponent, Limited, RangeFlags;
    var p, k := PlacesOf(n, i), Counted(n.whole, FractionOf(n));
    PartsPlaced(s, i, n);
    PartsEnd(s, i, n);
    Assembled(s, i, Integer(n.minus, NumberOf(n.whole), |n.whole|), p.fraction);
    SignificandRead(s, i, n);
    DoubleHandled(n.minus, SignificandOf(n), ExponentOf(n) - k);
    ExponentRead(s, p.exponent + 1, n.exponent.value.sign, n.exponent.value.digits, k);
  }

  lemma PlainRead(s: Bytes, i: nat, n: NumberText)
    requires WholeDone(s, i, n) && n.exponent.None?
    ensures NumberMeaning(n).Some? && LexNumber(s, i).Good? && LexNumber(s, i).next == i + |NumberTextOf(n)|
    ensures Handles(LexNumber(s, i).value, NumberMeaning(n).value)
  {
    hide NumberTextOf, Matches, NumberStops, NumberOf, Counted, TooBig, LexInteger, SignificandOf, Handles, AfterWhole;
    hide LexNumber, RangeFlags;
    var p, w, k := PlacesOf(n, i), NumberOf(n.whole), Counted(n.whole, FractionOf(n));
    PartsPlaced(s, i, n);
    PartsEnd(s, i, n);
    Assembled(s, i, Integer(n.minus, w, |n.whole|), p.fraction);
    SignificandRead(s, i, n);
    DoubleHandled(n.minus, SignificandOf(n), ExponentOf(n) - k);
    if w <= Limit64(n.minus) {
      IntegerHandled(n.minus, w);
    }
  }

  lemma WholeTooBig(s: Bytes, i: nat)
    requires i <= |s| && LexInteger(s, i) == Bad
    ensures LexNumber(s, i) == Bad
  {
    hide LexInteger;
  }

  lemma IntegerHandled(minus: bool, w: nat)
    requires w <= Limit64(minus)
    ensures var v := if minus then 0 - w else w; Handles(IntegerEvent(minus, w), JNumber(Number(v, RangeFlags(v))))
  {
    hide FromInt, FromUint, FromInt64, FromUint64, RangeFlags;
    var v := if minus then 0 - w else w;
    FlagsAreRanges(v);
    assert [] + [JNumber(Number(v, RangeFlags(v)))] == [JNumber(Number(v, RangeFlags(v)))];
  }

  lemma DoubleHandled(minus: bool, significand: nat, exponent: int)
    ensures Handles(DoubleEvent(minus, significand, exponent), JDouble(minus, significand, exponent))
  {
    var v := JDouble(minus, significand, exponent);
    assert [] + [v] == [v];
  }

  /** Which of the four integer events is emitted, by the sign and the size. */
  lemma IntegerKind(s: Bytes, i: nat, n: NumberText)
    requires ValidNumber(n) && n.fraction.None? && n.exponent.None?
    requires Matches(s, i, NumberTextOf(n)) && NumberStops(n, Peek(s, i + |NumberTextOf(n)|))
    ensures i <= |s|
    ensures var w := NumberOf(n.whole);
            && (n.minus && w <= 0x8000_0000 ==> LexNumber(s, i) == Good(IntEvent(0 - w), i + |NumberTextOf(n)|))
            && (n.minus && 0x8000_0000 < w <= 0x8000_0000_0000_0000 ==>
                  LexNumber(s, i) == Good(Int64Event(0 - w), i + |NumberTextOf(n)|))
            && (!n.minus && w < 0x1_0000_0000 ==> LexNumber(s, i) == Good(UintEvent(w), i + |NumberTextOf(n)|))
            && (!n.minus && 0x1_0000_0000 <= w <= 0xFFFF_FFFF_FFFF_FFFF ==>
                  LexNumber(s, i) == Good(Uint64Event(w), i + |NumberTextOf(n)|))
  {
    hide NumberTextOf, Matches, NumberStops, NumberOf, TooBig, LexInteger, LexNumber, FastFraction, SlowFraction;
    var p, w := PlacesOf(n, i), NumberOf(n.whole);
    PartsPlaced(s, i, n);
    PartsEnd(s, i, n);
    WholeRead(s, i, n.minus, n.whole);
    if w <= Limit64(n.minus) {
      Assembled(s, i, Integer(n.minus, w, |n.whole|), p.fraction);
    }
  }

  // ---- Nothing else is read ----

  lemma {:induction false} SlowEnds(s: Bytes, g: Significand)
    requires g.next <= |s|
    ensures SlowFraction(s, g).next == DigitsEnd(s, g.next)
    decreases |s| - g.next
  {
    if IsDigit(Peek(s, g.next)) {
      if g.digits >= 17 {
        SlowEnds(s, g.(next := g.next + 1));
      } else {
        var v := g.value * 10 + (s[g.next] - Ch('0'));
        SlowEnds(s, Significand(v, if v > 0 then g.digits + 1 else g.digits, g.expFrac - 1, g.next + 1));
      }
    }
  }

  lemma {:induction false} FastEnds(s: Bytes, g: Significand)
    requires g.next <= |s|
    ensures DigitsEnd(s, FastFraction(s, g).next) == DigitsEnd(s, g.next)
    decreases |s| - g.next
  {
    if IsDigit(Peek(s, g.next)) && g.value <= 0x1F_FFFF_FFFF_FFFF {
      var v := g.value * 10 + (s[g.next] - Ch('0'));
      FastEnds(s, Significand(v, if v != 0 then g.digits + 1 else g.digits, g.expFrac - 1, g.next + 1));
    }
  }

  lemma LoopsEnd(s: Bytes, g: Significand, minus: bool)
    requires g.next <= |s|
    ensures BothLoops(s, g, minus).next == DigitsEnd(s, g.next)
  {
    hide SlowFraction, FastFraction;
    FastEnds(s, g);
    SlowEnds(s, if g.value > Limit64(minus) then g.(digits := 17) else FastFraction(s, g));
  }

  lemma {:induction false} RestEnds(s: Bytes, minus: bool, maxExp: int, exp: nat, i: nat)
    requires i <= |s| && ExponentRest(s, minus, maxExp, exp, i).Good?
    ensures ExponentRest(s, minus, maxExp, exp, i).next == DigitsEnd(s, i)
    decreases |s| - i
  {
    if IsDigit(Peek(s, i)) {
      var e := exp * 10 + (s[i] - Ch('0'));
      if !(minus && e >= 214748364) {
        RestEnds(s, minus, maxExp, e, i + 1);
      }
    }
  }

  /** Digits from `i` on, up to where they end. */
  lemma DigitsTaken(s: Bytes, i: nat) returns (d: Bytes)
    requires i < |s| && IsDigit(s[i])
    ensures d != [] && AllDigits(d) && Matches(s, i, d) && i + |d| == DigitsEnd(s, i) && d[0] == s[i]
    ensures !IsDigit(Peek(s, i + |d|)) && DigitsEnd(s, i) == DigitsEnd(s, i + 1)
  {
    var j := DigitsEnd(s, i);
    d := s[i..j];
    RunSpelled(s, i, j);
  }

  lemma WholeSpelled(s: Bytes, i: nat) returns (minus: bool, whole: Bytes)
    requires i <= |s| && LexInteger(s, i).Good?
    ensures var j := if minus then i + 1 else i;
            && (minus <==> Peek(s, i) == Ch('-')) && ValidWhole(whole) && Matches(s, j, whole)
            && j + |whole| == LexInteger(s, i).next && (whole == [0x30] || !IsDigit(Peek(s, j + |whole|)))
  {
    hide TooBig, Decimal;
    minus := Peek(s, i) == Ch('-');
    var j := if minus then i + 1 else i;
    if Peek(s, j) == Ch('0') {
      whole := [0x30];
      OneMatches(s, j, 0x30);
    } else {
      whole := DigitsTaken(s, j);
    }
  }

  lemma ExponentSpelled(s: Bytes, i: nat, expFrac: int) returns (sign: Option<bool>, d: Bytes)
    requires i <= |s| && JsonLexer.Exponent(s, expFrac, i).Good?
    ensures d != [] && AllDigits(d) && Matches(s, i, SignText(sign) + d)
    ensures i + |SignText(sign) + d| == JsonLexer.Exponent(s, expFrac, i).next && !IsDigit(Peek(s, i + |SignText(sign) + d|))
  {
    hide ExponentRest;
    var minus := Peek(s, i) == Ch('-');
    var signed := minus || Peek(s, i) == Ch('+');
    var j := if signed then i + 1 else i;
    sign := if signed then Some(minus) else None;
    d := DigitsTaken(s, j);
    RestEnds(s, minus, 308 - expFrac, s[j] - Ch('0'), j + 1);
    assert Matches(s, i, SignText(sign)) by {
      if signed {
        OneMatches(s, i, s[i]);
      }
    }
    MatchesSplit(s, i, SignText(sign), d);
  }

  /** The fraction after the whole part. */
  lemma FractionSpelled(s: Bytes, j: nat, w: Integer) returns (fraction: Option<Bytes>)
    requires j <= |s| && w.digits > 0 && (Peek(s, j) == Ch('.') ==> IsDigit(Peek(s, j + 1)))
    ensures fraction.Some? <==> Peek(s, j) == Ch('.')
    ensures fraction.Some? ==> fraction.value != [] && AllDigits(fraction.value)
    ensures var g := AfterWhole(s, j, w.value, w.digits, w.minus, fraction.Some?);
            && Matches(s, j, DotText(fraction)) && j + |DotText(fraction)| == g.next <= |s|
            && (if fraction.Some? then !IsDigit(Peek(s, g.next)) else g.next == j)
  {
    hide BothLoops, DigitsEnd, Matches;
    if Peek(s, j) == Ch('.') {
      var d := DigitsTaken(s, j + 1);
      fraction := Some(d);
      LoopsEnd(s, Significand(w.value, w.digits - 1, 0, j + 1), w.minus);
      OneMatches(s, j, Ch('.'));
      MatchesSplit(s, j, [Ch('.')], d);
      EndsInside(s, j + 1, d);
    } else {
      fraction := None;
      EmptyMatches(s, j);
    }
  }

  /** The exponent, where there is one. */
  lemma PowerSpelled(s: Bytes, i: nat, expFrac: int) returns (exponent: Option<JsonSpelling.Exponent>)
    requires i <= |s|
    requires Peek(s, i) == Ch('e') || Peek(s, i) == Ch('E') ==> JsonLexer.Exponent(s, expFrac, i + 1).Good?
    ensures exponent.Some? <==> Peek(s, i) == Ch('e') || Peek(s, i) == Ch('E')
    ensures exponent.Some? ==> exponent.value.digits != [] && AllDigits(exponent.value.digits)
    ensures Matches(s, i, PowerText(exponent))
    ensures exponent.Some? ==> !IsDigit(Peek(s, i + |PowerText(exponent)|))
    ensures i + |PowerText(exponent)| == if exponent.Some? then JsonLexer.Exponent(s, expFrac, i + 1).next else i
  {
    hide JsonLexer.Exponent, Matches;
    if Peek(s, i) == Ch('e') || Peek(s, i) == Ch('E') {
      var sign, d := ExponentSpelled(s, i + 1, expFrac);
      exponent := Some(JsonSpelling.Exponent(Peek(s, i) == Ch('E'), sign, d));
      OneMatches(s, i, s[i]);
      MatchesSplit(s, i, [s[i]], SignText(sign) + d);
    } else {
      exponent := None;
      EmptyMatches(s, i);
    }
  }

  /** Whatever the reader takes for a number is a spelling of one, and ends where it ends. */
  lemma NumberSpelled(s: Bytes, i: nat) returns (n: NumberText)
    requires i <= |s| && LexNumber(s, i).Good?
    ensures ValidNumber(n) && Matches(s, i, NumberTextOf(n)) && i + |NumberTextOf(n)| == LexNumber(s, i).next
    ensures NumberStops(n, Peek(s, i + |NumberTextOf(n)|)) && NumberMeaning(n).Some?
    ensures Handles(LexNumber(s, i).value, NumberMeaning(n).value)
  {
    hide LexNumber, LexInteger, JsonLexer.Exponent, Matches, NumberTextOf, NumberMeaning, Handles;
    hide DotText, PowerText, AfterWhole, AllDigits;
    IntegerFirst(s, i);
    var minus, whole := WholeSpelled(s, i);
    var w, j := LexInteger(s, i).value, LexInteger(s, i).next;
    Assembled(s, i, w, j);
    var fraction := FractionSpelled(s, j, w);
    var g := AfterWhole(s, j, w.value, w.digits, w.minus, fraction.Some?);
    var exponent := PowerSpelled(s, g.next, g.expFrac);
    n := NumberText(minus, whole, fraction, exponent);
    PartsPlaced(s, i, n);
    NumberRead(s, i, n);
  }

  lemma EmptyMatches(s: Bytes, i: nat)
    requires i <= |s|
    ensures Matches(s, i, [])
  {
  }

  lemma IntegerFirst(s: Bytes, i: nat)
    requires i <= |s| && LexNumber(s, i).Good?
    ensures LexInteger(s, i).Good?
    ensures var j := LexInteger(s, i).next; Peek(s, j) == Ch('.') ==> IsDigit(Peek(s, j + 1))
  {
    hide LexInteger, JsonLexer.Exponent, FastFraction, SlowFraction;
  }
}
