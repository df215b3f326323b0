/**
 Byte strings as C strings: reading at the end yields the terminator 0.
 */
module ByteStrings {

  datatype Option<+T> = None | Some(value: T)

  /** One more than the largest unsigned int. */
  const WIDTH: nat := 0x1_0000_0000

  type Byte = b: int | 0 <= b < 256
  type Bytes = seq<Byte>

  function Peek(s: Bytes, i: nat): Byte { if i < |s| then s[i] else 0 }

  function Ch(c: char): Byte
    requires c as int < 256
  {
    c as int
  }

  predicate IsDigit(c: Byte) { Ch('0') <= c <= Ch('9') }

  function HexDigit(c: Byte): (r: Option<nat>)
    ensures r.Some? ==> r.value < 16
  {
    if IsDigit(c) then Some(c - Ch('0'))
    else if Ch('A') <= c <= Ch('F') then Some(c - Ch('A') + 10)
    else if Ch('a') <= c <= Ch('f') then Some(c - Ch('a') + 10)
    else None
  }

  function HexChar(d: nat): Byte
    requires d < 16
  {
    if d < 10 then Ch('0') + d else Ch('A') + (d - 10)
  }

  /** `word` stands in `s` at `i`. */
  predicate Matches(s: Bytes, i: nat, word: Bytes)
  {
    i + |word| <= |s| && forall k :: 0 <= k < |word| ==> s[i + k] == word[k]
  }

  lemma MatchesSplit(s: Bytes, i: nat, a: Bytes, b: Bytes)
    ensures Matches(s, i, a + b) <==> Matches(s, i, a) && Matches(s, i + |a|, b)
  {
    if Matches(s, i, a + b) {
      forall k | 0 <= k < |a|
        ensures s[i + k] == a[k]
      {
        assert (a + b)[k] == a[k];
      }
      forall k | 0 <= k < |b|
        ensures s[i + |a| + k] == b[k]
      {
        assert (a + b)[|a| + k] == b[k];
        assert s[i + (|a| + k)] == (a + b)[|a| + k];
      }
    }
    if Matches(s, i, a) && Matches(s, i + |a|, b) {
      forall k | 0 <= k < |a + b|
        ensures s[i + k] == (a + b)[k]
      {
        if k >= |a| {
          assert s[i + |a| + (k - |a|)] == b[k - |a|];
        }
      }
    }
  }

  lemma First(s: Bytes, i: nat, w: Bytes)
    requires w != [] && Matches(s, i, w)
    ensures i < |s| && s[i] == Peek(s, i) == w[0]
  {
    assert s[i + 0] == w[0];
  }

  lemma OneMatches(s: Bytes, i: nat, c: Byte)
    ensures Matches(s, i, [c]) <==> i < |s| && s[i] == c
  {
    assert Matches(s, i, [c]) ==> s[i + 0] == [c][0];
  }

  lemma SliceMatches(s: Bytes, i: nat, j: nat)
    requires i <= j <= |s|
    ensures Matches(s, i, s[i..j])
  {
  }

  lemma Associates<T>(a: seq<T>, b: seq<T>, c: seq<T>)
    ensures a + b + c == a + (b + c)
  {
  }

  lemma Mismatch(s: Bytes, i: nat, w: Bytes, k: nat)
    requires k < |w| && Peek(s, i + k) != w[k]
    ensures !Matches(s, i, w)
  {
  }

  lemma Whole(s: Bytes)
    ensures Matches(s, 0, s)
  {
  }
}
