/**
 Decoding one measurement: up to four 16-bit words, most significant first, unsigned or
 with a sign bit in front of the magnitude, times the register's scale.
*/
module SignMagnitude {

  import opened Words

  const TWO_TO_64: nat := 0x1_0000_0000_0000_0000
  const MAX_WORDS: nat := 4

  /** 2 to the power 16 * n. */
  function Span(n: nat): (r: nat)
    ensures 1 <= r
  {
    if n == 0 then 1 else 0x1_0000 * Span(n - 1)
  }

  /** The weight of the sign bit of an n-word value. */
  function SignWeight(n: nat): nat
    requires 1 <= n
  {
    0x8000 * Span(n - 1)
  }

  lemma SpanValues(n: nat)
    requires n <= MAX_WORDS
    ensures Span(n) <= TWO_TO_64
    ensures 1 <= n ==> Span(n) == 2 * SignWeight(n) && 0 < SignWeight(n) <= TWO_TO_64 / 2
  {
    assert Span(1) == 0x1_0000 && Span(2) == 0x1_0000_0000;
    assert Span(3) == 0x1_0000_0000_0000 && Span(4) == TWO_TO_64;
  }

  /** The number the words spell in base 65536. */
  function Positional(words: seq<u16>): (r: nat)
    ensures r < Span(|words|)
  {
    if words == [] then 0 else Positional(words[..|words| - 1]) * 0x1_0000 + words[|words| - 1]
  }

  /** Sign bit and magnitude of an n-word number. */
  function SignedValue(raw: nat, n: nat): int
    requires 1 <= n
  {
    if raw >= SignWeight(n) then -(raw - SignWeight(n)) else raw
  }

  /** The shift-or loop. */
  method CombineWords(words: seq<u16>) returns (raw: nat)
    requires |words| <= MAX_WORDS
    ensures raw == Positional(words)
  {
    raw := 0;
    for i := 0 to |words|
      invariant raw == Positional(words[..i])
    {
      NoWordIsLost(words, i);
      // A left shift by 16 in 64 bits; the low half it clears takes the next word.
      raw := (raw * 0x1_0000) % TWO_TO_64 + words[i];
    }
    assert words[..|words|] == words;
  }

  /** Nothing is shifted out of the 64 bits. */
  lemma NoWordIsLost(words: seq<u16>, i: nat)
    requires i < |words| <= MAX_WORDS
    ensures Positional(words[..i + 1]) == Positional(words[..i]) * 0x1_0000 + words[i]
    ensures Positional(words[..i]) * 0x1_0000 < TWO_TO_64
  {
    assert words[..i + 1][..i] == words[..i];
    SpanValues(i + 1);
  }

  method DecodeScaled(words: seq<u16>, scale: real, isSigned: bool) returns (err: Esp, value: real)
    ensures err == if 1 <= |words| <= MAX_WORDS then Ok else InvalidArg
    ensures err == Ok ==>
      value == (if isSigned then SignedValue(Positional(words), |words|) else Positional(words)) as real * scale
    ensures err == Ok ==> Positional(words) < TWO_TO_64
    ensures err == Ok && isSigned ==>
      -(TWO_TO_64 as int) / 2 < SignedValue(Positional(words), |words|) < TWO_TO_64 / 2
  {
    hide Positional, SignWeight;
    var n := |words|;
    if n == 0 || n > MAX_WORDS {
      return InvalidArg, 0.0;
    }
    var raw := CombineWords(words);
    SpanValues(n);
    if !isSigned {
      return Ok, raw as real * scale;
    }
    var signWeight := SignWeight(n);
    BitsOf(raw, signWeight);
    var isNegative := raw / signWeight % 2 != 0;
    var magnitude := raw % signWeight;
    assert magnitude < TWO_TO_64 / 2;
    var signedValue := if isNegative then -magnitude else magnitude;
    return Ok, signedValue as real * scale;
  }

  lemma BitsOf(raw: nat, weight: nat)
    requires 0 < weight && raw < 2 * weight
    ensures raw / weight == if raw >= weight then 1 else 0
    ensures raw % weight == if raw >= weight then raw - weight else raw
  {
  }

  // ---------------------------------------------------------------- the inverse

  /** The n words of a number, most significant first. */
  function Digits(x: nat, n: nat): (words: seq<u16>)
    ensures |words| == n
  {
    if n == 0 then [] else Digits(x / 0x1_0000, n - 1) + [x % 0x1_0000]
  }

  function EncodeSigned(v: int, n: nat): seq<u16>
    requires 1 <= n
  {
    Digits(if v < 0 then SignWeight(n) - v else v, n)
  }

  lemma {:induction false} DigitsSpell(x: nat, n: nat)
    requires x < Span(n)
    ensures Positional(Digits(x, n)) == x
  {
    if n > 0 {
      DigitsSpell(x / 0x1_0000, n - 1);
      assert Digits(x, n)[..n - 1] == Digits(x / 0x1_0000, n - 1);
    }
  }

  lemma {:induction false} PositionalIsInjective(a: seq<u16>, b: seq<u16>)
    requires |a| == |b| && Positional(a) == Positional(b)
    ensures a == b
  {
    if a != [] {
      var n := |a| - 1;
      PositionalIsInjective(a[..n], b[..n]);
      assert a == a[..n] + [a[n]] && b == b[..n] + [b[n]];
    }
  }

  lemma SpanIsTwoSigns(n: nat)
    requires 1 <= n
    ensures Span(n) == 2 * SignWeight(n) && 0 < SignWeight(n)
  {
  }

  /** Every value of magnitude below the sign bit survives encoding and decoding. */
  lemma SignedRoundTrip(v: int, n: nat)
    requires 1 <= n && -(SignWeight(n) as int) < v < SignWeight(n)
    ensures SignedValue(Positional(EncodeSigned(v, n)), n) == v
  {
    SpanIsTwoSigns(n);
    DigitsSpell(if v < 0 then SignWeight(n) - v else v, n);
  }

  /** Two different word strings decode to the same value exactly when they are plus and minus zero. */
  lemma OnlyZeroHasTwoEncodings(a: seq<u16>, b: seq<u16>)
    requires |a| == |b| && 1 <= |a| && a != b
    ensures SignedValue(Positional(a), |a|) == SignedValue(Positional(b), |b|) <==>
      {Positional(a), Positional(b)} == {0, SignWeight(|a|)}
  {
    hide Positional;
    SpanIsTwoSigns(|a|);
    if Positional(a) == Positional(b) {
      PositionalIsInjective(a, b);
    }
    var x, y, w := Positional(a), Positional(b), SignWeight(|a|);
    if {x, y} == {0, w} {
      assert 0 in {x, y} && w in {x, y};
    }
    if SignedValue(x, |a|) == SignedValue(y, |a|) {
      assert (x == 0 && y == w) || (x == w && y == 0);
    }
  }

  // ---------------------------------------------------------------- the format

  // What the words mean, written from the most significant one and without the decoder's weights.

  function Power(n: nat): nat {
    if n == 0 then 1 else Power(n - 1) * 65536
  }

  function Weighted(words: seq<u16>): nat {
    if words == [] then 0 else words[0] * Power(|words| - 1) + Weighted(words[1..])
  }

  lemma {:induction false} WeightedLast(words: seq<u16>, w: u16)
    ensures Weighted(words + [w]) == Weighted(words) * 65536 + w
  {
    var all := words + [w];
    if words == [] {
      assert all[1..] == [];
    } else {
      assert all[1..] == words[1..] + [w];
      WeightedLast(words[1..], w);
      Distribute(words[0], Power(|words| - 1), Weighted(words[1..]));
    }
  }

  lemma Distribute(a: nat, b: nat, c: nat)
    ensures (a * b + c) * 65536 == a * (b * 65536) + c * 65536
  {
  }

  lemma {:induction false} PowerIsSpan(n: nat)
    ensures Power(n) == Span(n)
  {
    if n > 0 {
      PowerIsSpan(n - 1);
    }
  }

  /** Word i of n weighs 65536 to the power n - 1 - i. */
  lemma {:induction false} PositionalIsWeighted(words: seq<u16>)
    ensures Positional(words) == Weighted(words) < Power(|words|)
  {
    PowerIsSpan(|words|);
    if words != [] {
      var n := |words| - 1;
      PositionalIsWeighted(words[..n]);
      WeightedLast(words[..n], words[n]);
      assert words == words[..n] + [words[n]];
    }
  }

  /** The first bit of the first word is the sign, and all the other bits are the magnitude. */
  lemma SignIsFirstBit(words: seq<u16>)
    requires words != []
    ensures SignedValue(Positional(words), |words|)
         == if words[0] < 0x8000 then Weighted(words) as int
            else -(Weighted([words[0] - 0x8000] + words[1..]) as int)
  {
    hide Positional, Weighted, Power, Span;
    var n := |words| - 1;
    PositionalIsWeighted(words);
    PositionalIsWeighted(words[1..]);
    PowerIsSpan(n);
    FirstWord(words);
    if words[0] < 0x8000 {
      Monotone(words[0], 0x8000, Power(n));
    } else {
      var rest := [words[0] - 0x8000] + words[1..];
      FirstWord(rest);
      assert rest[1..] == words[1..];
      Difference(words[0], Power(n));
    }
  }

  lemma FirstWord(words: seq<u16>)
    requires words != []
    ensures Weighted(words) == words[0] * Power(|words| - 1) + Weighted(words[1..])
  {
  }

  lemma Monotone(a: nat, b: nat, c: nat)
    requires a < b
    ensures a * c + c <= b * c
  {
    assert b * c == (a + 1) * c + (b - a - 1) * c;
  }

  lemma Difference(a: nat, c: nat)
    requires a >= 0x8000
    ensures (a - 0x8000) * c == a * c - 0x8000 * c && 0x8000 * c <= a * c
  {
  }
}
