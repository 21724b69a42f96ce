/**
 The record checksum as the polynomial division it is named for: the message, preset with ones,
 is divided by x^16 + x^15 + x^2 + 1, and what the shift register is left with is the remainder.
*/
module CrcDivision {

  import opened Words
  import opened Crc16

  // Polynomials over the field of two elements are sequences of coefficients, highest power first.

  /** x^16 + x^15 + x^2 + 1. */
  const GENERATOR: seq<bool> :=
    [true, true, false, false, false, false, false, false, false,
     false, false, false, false, false, true, false, true]

  function Zeros(n: nat): (p: seq<bool>)
    ensures |p| == n && forall i :: 0 <= i < n ==> !p[i]
  {
    seq(n, _ => false)
  }

  /** The sum, which is also the difference. */
  function Plus(p: seq<bool>, q: seq<bool>): (r: seq<bool>)
    requires |p| == |q|
    ensures |r| == |p| && forall i :: 0 <= i < |p| ==> r[i] == (p[i] != q[i])
  {
    seq(|p|, i requires 0 <= i < |p| => p[i] != q[i])
  }

  /** The product with the generator. */
  function TimesGenerator(p: seq<bool>): (r: seq<bool>)
    ensures |r| == |p| + 16
  {
    if p == [] then Zeros(16)
    else Plus(if p[0] then GENERATOR + Zeros(|p| - 1) else Zeros(|p| + 16), [false] + TimesGenerator(p[1..]))
  }

  /** One step of long division: the leading coefficient is eliminated. */
  function Reduced(p: seq<bool>): (r: seq<bool>)
    requires |p| >= 17
    ensures |r| == |p| - 1
  {
    if p[0] then Plus(p[1..], GENERATOR[1..] + Zeros(|p| - 17)) else p[1..]
  }

  /** The remainder of long division by the generator: a polynomial of degree at most 15. */
  function Remainder(p: seq<bool>): (r: seq<bool>)
    requires |p| >= 16
    ensures |r| == 16
    decreases |p|
  {
    if |p| == 16 then p else Remainder(Reduced(p))
  }

  function Quotient(p: seq<bool>): (q: seq<bool>)
    requires |p| >= 16
    ensures |q| == |p| - 16
    decreases |p|
  {
    if |p| == 16 then [] else [p[0]] + Quotient(Reduced(p))
  }

  function Leading(b: bool, n: nat): (p: seq<bool>)
    requires 1 <= n
    ensures |p| == n + 16
  {
    if b then GENERATOR + Zeros(n - 1) else Zeros(n + 16)
  }

  lemma UndoReduction(p: seq<bool>, m: seq<bool>, r: seq<bool>)
    requires |p| >= 17 && |m| == |r| == |p| - 1 && Reduced(p) == Plus(m, r)
    ensures p == Plus(Plus(Leading(p[0], |p| - 16), [false] + m), [false] + r)
  {
    hide Plus, Zeros;
    var lead := Leading(p[0], |p| - 16);
    var sum := Plus(Plus(lead, [false] + m), [false] + r);
    forall i | 0 <= i < |p|
      ensures p[i] == sum[i]
    {
      if i > 0 {
        assert Reduced(p)[i - 1] == (m[i - 1] != r[i - 1]);
        assert p[0] ==> (GENERATOR[1..] + Zeros(|p| - 17))[i - 1] == lead[i];
      }
    }
  }

  lemma TimesGeneratorStep(p: seq<bool>)
    requires p != []
    ensures TimesGenerator(p) == Plus(Leading(p[0], |p|), [false] + TimesGenerator(p[1..]))
  {
    hide Plus, Zeros;
  }

  /** It is the remainder: the dividend is the quotient times the generator, plus it. */
  lemma {:induction false} RemainderDivides(p: seq<bool>)
    requires |p| >= 16
    ensures p == Plus(TimesGenerator(Quotient(p)), Zeros(|p| - 16) + Remainder(p))
    decreases |p|
  {
    hide Plus, Reduced, TimesGenerator, Leading;
    if |p| > 16 {
      hide Zeros;
      var q, q' := Quotient(p), Quotient(Reduced(p));
      var r' := Zeros(|p| - 17) + Remainder(p);
      RemainderDivides(Reduced(p));
      assert q[1..] == q' && q[0] == p[0];
      TimesGeneratorStep(q);
      UndoReduction(p, TimesGenerator(q'), r');
      assert [false] + r' == Zeros(|p| - 16) + Remainder(p);
    } else {
      NothingToDivide(p);
    }
  }

  lemma NothingToDivide(p: seq<bool>)
    requires |p| == 16
    ensures p == Plus(TimesGenerator([]), [] + p) && Zeros(0) == []
  {
  }

  function Under(x: word, mask: word): word {
    x & mask
  }

  predicate Has(x: word, mask: word) {
    Under(x, mask) != 0
  }

  function Mask(i: nat): word
    requires i < 16
  {
    if i == 0 then 0x0001
    else if i == 1 then 0x0002
    else if i == 2 then 0x0004
    else if i == 3 then 0x0008
    else if i == 4 then 0x0010
    else if i == 5 then 0x0020
    else if i == 6 then 0x0040
    else if i == 7 then 0x0080
    else if i == 8 then 0x0100
    else if i == 9 then 0x0200
    else if i == 10 then 0x0400
    else if i == 11 then 0x0800
    else if i == 12 then 0x1000
    else if i == 13 then 0x2000
    else if i == 14 then 0x4000
    else 0x8000
  }

  /** The coefficients a register stands for: its lowest bit is that of x^15. */
  function Coefficients(x: word): (p: seq<bool>)
    ensures |p| == 16 && forall i :: 0 <= i < 16 ==> p[i] == Has(x, Mask(i))
  {
    seq(16, i requires 0 <= i < 16 => Has(x, Mask(i)))
  }

  /** The bits of a byte in the order they are sent, least significant first. */
  function SentBits(b: byte): (p: seq<bool>)
    ensures |p| == 8
  {
    Coefficients(b as word)[..8]
  }

  /** A message as a polynomial, the first bit sent being the highest coefficient. */
  function MessagePolynomial(data: seq<byte>): (p: seq<bool>)
    ensures |p| == 8 * |data|
  {
    if data == [] then [] else SentBits(data[0]) + MessagePolynomial(data[1..])
  }

  /** The message times x^16, with its sixteen highest coefficients complemented: the preset of ones. */
  function Dividend(data: seq<byte>): (p: seq<bool>)
    ensures |p| == 8 * |data| + 16
  {
    var p := MessagePolynomial(data) + Zeros(16);
    seq(|p|, i requires 0 <= i < |p| => if i < 16 then !p[i] else p[i])
  }

  // The shift register carries out the long division.

  function Prefixed(c: word, bits: seq<bool>): (p: seq<bool>)
    ensures |p| == |bits| + 16
  {
    Plus(bits + Zeros(16), Coefficients(c) + Zeros(|bits|))
  }

  lemma LowBitsOfHalve(x: word)
    ensures Has(Halve(x), 0x0001) == Has(x, 0x0002)
    ensures Has(Halve(x), 0x0002) == Has(x, 0x0004)
    ensures Has(Halve(x), 0x0004) == Has(x, 0x0008)
    ensures Has(Halve(x), 0x0008) == Has(x, 0x0010)
    ensures Has(Halve(x), 0x0010) == Has(x, 0x0020)
    ensures Has(Halve(x), 0x0020) == Has(x, 0x0040)
    ensures Has(Halve(x), 0x0040) == Has(x, 0x0080)
    ensures Has(Halve(x), 0x0080) == Has(x, 0x0100)
  {
  }

  lemma HighBitsOfHalve(x: word)
    ensures Has(Halve(x), 0x0100) == Has(x, 0x0200)
    ensures Has(Halve(x), 0x0200) == Has(x, 0x0400)
    ensures Has(Halve(x), 0x0400) == Has(x, 0x0800)
    ensures Has(Halve(x), 0x0800) == Has(x, 0x1000)
    ensures Has(Halve(x), 0x1000) == Has(x, 0x2000)
    ensures Has(Halve(x), 0x2000) == Has(x, 0x4000)
    ensures Has(Halve(x), 0x4000) == Has(x, 0x8000)
    ensures !Has(Halve(x), 0x8000)
  {
  }

  lemma Masks()
    ensures Mask(0) == 0x0001
    ensures Mask(1) == 0x0002
    ensures Mask(2) == 0x0004
    ensures Mask(3) == 0x0008
    ensures Mask(4) == 0x0010
    ensures Mask(5) == 0x0020
    ensures Mask(6) == 0x0040
    ensures Mask(7) == 0x0080
    ensures Mask(8) == 0x0100
    ensures Mask(9) == 0x0200
    ensures Mask(10) == 0x0400
    ensures Mask(11) == 0x0800
    ensures Mask(12) == 0x1000
    ensures Mask(13) == 0x2000
    ensures Mask(14) == 0x4000
    ensures Mask(15) == 0x8000
  {
  }

  lemma BitOfHalve(x: word, i: nat)
    requires i < 16
    ensures Has(Halve(x), Mask(i)) == (i < 15 && Has(x, Mask(i + 1)))
  {
    hide Has, Halve, Mask;
    Masks();
    LowBitsOfHalve(x);
    HighBitsOfHalve(x);
  }

  predicate OneBit(m: word) {
    m & (m - 1) == 0
  }

  lemma MaskIsOneBit(i: nat)
    requires i < 16
    ensures OneBit(Mask(i))
  {
  }

  lemma XorUnder(a: word, b: word, m: word)
    ensures Under(Xor(a, b), m) == Xor(Under(a, m), Under(b, m))
  {
  }

  lemma UnderOneBit(x: word, m: word)
    requires OneBit(m)
    ensures Under(x, m) == 0 || Under(x, m) == m
  {
  }

  lemma XorOfOne(u: word, v: word, m: word)
    requires (u == 0 || u == m) && (v == 0 || v == m)
    ensures Xor(u, v) == if u == v then 0 else m
  {
    hide Xor;
    XorSelf(u);
    XorZero(u);
    XorCommutes(u, v);
    XorZero(v);
  }

  lemma XorSelf(u: word)
    ensures Xor(u, u) == 0
  {
  }

  lemma XorCommutes(u: word, v: word)
    ensures Xor(u, v) == Xor(v, u)
  {
  }

  lemma BitOfXor(a: word, b: word, i: nat)
    requires i < 16
    ensures Has(Xor(a, b), Mask(i)) == (Has(a, Mask(i)) != Has(b, Mask(i)))
  {
    hide Mask, Under, Xor, OneBit;
    var m := Mask(i);
    MaskIsOneBit(i);
    XorUnder(a, b, m);
    UnderOneBit(a, m);
    UnderOneBit(b, m);
    XorOfOne(Under(a, m), Under(b, m), m);
  }

  lemma BitsOfConstants(i: nat, b: bool)
    requires i < 16
    ensures Has(POLYNOMIAL, Mask(i)) == (i == 0 || i == 13 || i == 15)
    ensures Has(Bit(b), Mask(i)) == (b && i == 0)
    ensures Has(INITIAL, Mask(i))
  {
  }

  lemma LowestBit(x: word)
    ensures LowBit(x) == Has(x, Mask(0))
  {
  }

  /** One turn of the inner loop moves the coefficients up and subtracts the generator if x^16 has appeared. */
  lemma ShiftReduces(d: word)
    ensures Coefficients(Shift(d)) == Reduced(Coefficients(d) + [false])
  {
    hide Has, Mask, Halve, Xor, LowBit, Zeros;
    LowestBit(d);
    var p := Coefficients(d) + [false];
    forall i | 0 <= i < 16
      ensures Coefficients(Shift(d))[i] == Reduced(p)[i]
    {
      BitOfHalve(d, i);
      BitOfXor(Halve(d), POLYNOMIAL, i);
      BitsOfConstants(i, false);
      GeneratorAt(i);
    }
  }

  lemma GeneratorAt(i: nat)
    requires i < 16
    ensures (GENERATOR[1..] + Zeros(0))[i] == (i == 0 || i == 13 || i == 15)
  {
  }

  lemma CoefficientsOfXor(a: word, b: bool)
    ensures Coefficients(Xor(a, Bit(b))) == [Coefficients(a)[0] != b] + Coefficients(a)[1..]
  {
    hide Has, Mask, Xor, Bit;
    forall i | 0 <= i < 16
      ensures Coefficients(Xor(a, Bit(b)))[i] == (Coefficients(a)[i] != (b && i == 0))
    {
      BitOfXor(a, Bit(b), i);
      BitsOfConstants(i, b);
    }
  }

  lemma PrefixedStep(c: word, b: bool, rest: seq<bool>)
    ensures Reduced(Prefixed(c, [b] + rest)) == Prefixed(Feed(c, b), rest)
  {
    var d := Xor(c, Bit(b));
    var p, p' := Prefixed(c, [b] + rest), Prefixed(Feed(c, b), rest);
    CoefficientsOfXor(c, b);
    ShiftReduces(d);
    hide Coefficients, Shift, Xor, Bit;
    var short := Coefficients(d) + [false];
    assert p[0] == short[0];
    forall i | 0 <= i < |p'|
      ensures Reduced(p)[i] == p'[i]
    {
      if i < 16 {
        assert Coefficients(Feed(c, b))[i] == Reduced(short)[i];
        assert i < 15 ==> short[i + 1] == Coefficients(c)[i + 1];
      }
    }
  }

  lemma {:induction false} SerialDivides(c: word, bits: seq<bool>)
    ensures Coefficients(Serial(c, bits)) == Remainder(Prefixed(c, bits))
    decreases |bits|
  {
    hide Coefficients, Feed, Reduced, Prefixed;
    if bits == [] {
      PrefixedNothing(c);
    } else {
      assert bits == [bits[0]] + bits[1..];
      PrefixedStep(c, bits[0], bits[1..]);
      SerialDivides(Feed(c, bits[0]), bits[1..]);
    }
  }

  lemma PrefixedNothing(c: word)
    ensures Prefixed(c, []) == Coefficients(c)
  {
    hide Coefficients;
  }

  lemma {:induction false} BitsFromAt(x: word, n: nat, i: nat)
    requires i < n <= 16
    ensures BitsFrom(x, n)[i] == Has(x, Mask(i))
    decreases n
  {
    hide Has, Mask, Halve, LowBit;
    LowestBit(x);
    if i > 0 {
      BitsFromAt(Halve(x), n - 1, i - 1);
      BitOfHalve(x, i - 1);
    }
  }

  lemma SentBitsAreBits(b: byte)
    ensures BitsFrom(b as word, 8) == SentBits(b)
  {
    hide Has, Mask, BitsFrom;
    forall i | 0 <= i < 8
      ensures BitsFrom(b as word, 8)[i] == SentBits(b)[i]
    {
      BitsFromAt(b as word, 8, i);
    }
  }

  lemma {:induction false} MessageBitsFirst(data: seq<byte>)
    requires data != []
    ensures MessageBits(data) == BitsFrom(data[0] as word, 8) + MessageBits(data[1..])
    decreases |data|
  {
    hide BitsFrom, MessageBits;
    var n := |data| - 1;
    var init := data[..n];
    LastByteBits(data);
    if n == 0 {
      NoMessageBits();
      assert init == [] && data[1..] == [];
    } else {
      MessageBitsFirst(init);
      LastByteBits(data[1..]);
      assert init[1..] == data[1..][..n - 1] && init[0] == data[0] && data[1..][n - 1] == data[n];
      Regroup(BitsFrom(data[0] as word, 8), MessageBits(init[1..]), BitsFrom(data[n] as word, 8));
    }
  }

  lemma NoMessageBits()
    ensures MessageBits([]) == []
  {
  }

  lemma Regroup(a: seq<bool>, b: seq<bool>, c: seq<bool>)
    ensures a + b + c == a + (b + c)
  {
  }

  lemma {:induction false} PolynomialIsBits(data: seq<byte>)
    ensures MessagePolynomial(data) == MessageBits(data)
  {
    hide BitsFrom, SentBits;
    if data != [] {
      MessageBitsFirst(data);
      SentBitsAreBits(data[0]);
      PolynomialIsBits(data[1..]);
    }
  }

  /**
   The checksum is the remainder on division by x^16 + x^15 + x^2 + 1 of the message, its bits taken
   least significant first, times x^16, with a preset of ones.
  */
  lemma ChecksumIsRemainder(data: seq<byte>)
    ensures Coefficients(Checksum(data)) == Remainder(Dividend(data))
  {
    hide Coefficients, Serial, MessageBits, MessagePolynomial, Remainder, Register;
    RegisterIsSerial(INITIAL, data);
    SerialDivides(INITIAL, MessageBits(data));
    PolynomialIsBits(data);
    AllOnes();
    assert Dividend(data) == Prefixed(INITIAL, MessageBits(data));
  }

  lemma AllOnes()
    ensures forall i :: 0 <= i < 16 ==> Coefficients(INITIAL)[i]
  {
    hide Has, Mask;
    forall i | 0 <= i < 16
      ensures Coefficients(INITIAL)[i]
    {
      BitsOfConstants(i, false);
    }
  }

  lemma SameBits(a: word, b: word)
    requires Coefficients(a) == Coefficients(b)
    ensures Has(a, 0x0001) == Has(b, 0x0001)
    ensures Has(a, 0x0002) == Has(b, 0x0002)
    ensures Has(a, 0x0004) == Has(b, 0x0004)
    ensures Has(a, 0x0008) == Has(b, 0x0008)
    ensures Has(a, 0x0010) == Has(b, 0x0010)
    ensures Has(a, 0x0020) == Has(b, 0x0020)
    ensures Has(a, 0x0040) == Has(b, 0x0040)
    ensures Has(a, 0x0080) == Has(b, 0x0080)
    ensures Has(a, 0x0100) == Has(b, 0x0100)
    ensures Has(a, 0x0200) == Has(b, 0x0200)
    ensures Has(a, 0x0400) == Has(b, 0x0400)
    ensures Has(a, 0x0800) == Has(b, 0x0800)
    ensures Has(a, 0x1000) == Has(b, 0x1000)
    ensures Has(a, 0x2000) == Has(b, 0x2000)
    ensures Has(a, 0x4000) == Has(b, 0x4000)
    ensures Has(a, 0x8000) == Has(b, 0x8000)
  {
    hide Has;
    var p, q := Coefficients(a), Coefficients(b);
    assert forall i :: 0 <= i < 16 ==> p[i] == q[i];
    assert p[0] == Has(a, 0x0001);
    assert p[1] == Has(a, 0x0002);
    assert p[2] == Has(a, 0x0004);
    assert p[3] == Has(a, 0x0008);
    assert p[4] == Has(a, 0x0010);
    assert p[5] == Has(a, 0x0020);
    assert p[6] == Has(a, 0x0040);
    assert p[7] == Has(a, 0x0080);
    assert p[8] == Has(a, 0x0100);
    assert p[9] == Has(a, 0x0200);
    assert p[10] == Has(a, 0x0400);
    assert p[11] == Has(a, 0x0800);
    assert p[12] == Has(a, 0x1000);
    assert p[13] == Has(a, 0x2000);
    assert p[14] == Has(a, 0x4000);
    assert p[15] == Has(a, 0x8000);
  }

  /** Coefficients determine the register, so the remainder determines the checksum. */
  lemma CoefficientsAreInjective(a: word, b: word)
    requires Coefficients(a) == Coefficients(b)
    ensures a == b
  {
    SameBits(a, b);
    hide Coefficients;
  }

  lemma EightShifts(c: word)
    ensures Shifts(c, 8) == Shift(Shift(Shift(Shift(Shift(Shift(Shift(Shift(c))))))))
  {
    hide Shift;
    assert Shifts(c, 8) == Shifts(Shift(Shift(c)), 6);
    assert Shifts(Shift(Shift(c)), 6) == Shifts(Shift(Shift(Shift(Shift(c)))), 4);
  }

  lemma NextByte(data: seq<byte>, b: byte, c: word)
    requires Checksum(data) == c
    ensures Checksum(data + [b]) == Shifts(Xor(c, b as word), 8)
  {
    hide Shifts, Xor;
    assert (data + [b])[..|data|] == data;
  }

  /** The register after one byte, shift by shift. */
  lemma ByteStep(data: seq<byte>, b: byte, data': seq<byte>,
      c0: word, c1: word, c2: word, c3: word, c4: word, c5: word, c6: word, c7: word, c8: word)
    requires data' == data + [b] && Xor(Checksum(data), b as word) == c0
    requires Shift(c0) == c1 && Shift(c1) == c2 && Shift(c2) == c3 && Shift(c3) == c4
    requires Shift(c4) == c5 && Shift(c5) == c6 && Shift(c6) == c7 && Shift(c7) == c8
    ensures Checksum(data') == c8
  {
    hide Shift, Xor;
    NextByte(data, b, Checksum(data));
    EightShifts(c0);
  }

  /** The published check value: the checksum of the nine digits "123456789". */
  lemma CheckValue()
    ensures Checksum([0x31, 0x32, 0x33, 0x34, 0x35, 0x36, 0x37, 0x38, 0x39]) == 0x4B37
  {
    hide Register, Checksum;
    NothingYet();
    ByteStep([], 0x31, [0x31],
             0xFFCE, 0x7FE7, 0x9FF2, 0x4FF9, 0x87FD, 0xE3FF, 0xD1FE, 0x68FF, 0x947E);
    ByteStep([0x31], 0x32, [0x31, 0x32],
             0x944C, 0x4A26, 0x2513, 0xB288, 0x5944, 0x2CA2, 0x1651, 0xAB29, 0xF595);
    ByteStep([0x31, 0x32], 0x33, [0x31, 0x32, 0x33],
             0xF5A6, 0x7AD3, 0x9D68, 0x4EB4, 0x275A, 0x13AD, 0xA9D7, 0xF4EA, 0x7A75);
    ByteStep([0x31, 0x32, 0x33], 0x34, [0x31, 0x32, 0x33, 0x34],
             0x7A41, 0x9D21, 0xEE91, 0xD749, 0xCBA5, 0xC5D3, 0xC2E8, 0x6174, 0x30BA);
    ByteStep([0x31, 0x32, 0x33, 0x34], 0x35, [0x31, 0x32, 0x33, 0x34, 0x35],
             0x308F, 0xB846, 0x5C23, 0x8E10, 0x4708, 0x2384, 0x11C2, 0x08E1, 0xA471);
    ByteStep([0x31, 0x32, 0x33, 0x34, 0x35], 0x36, [0x31, 0x32, 0x33, 0x34, 0x35, 0x36],
             0xA447, 0xF222, 0x7911, 0x9C89, 0xEE45, 0xD723, 0xCB90, 0x65C8, 0x32E4);
    ByteStep([0x31, 0x32, 0x33, 0x34, 0x35, 0x36], 0x37, [0x31, 0x32, 0x33, 0x34, 0x35, 0x36, 0x37],
             0x32D3, 0xB968, 0x5CB4, 0x2E5A, 0x172D, 0xAB97, 0xF5CA, 0x7AE5, 0x9D73);
    ByteStep([0x31, 0x32, 0x33, 0x34, 0x35, 0x36, 0x37], 0x38, [0x31, 0x32, 0x33, 0x34, 0x35, 0x36, 0x37, 0x38],
             0x9D4B, 0xEEA4, 0x7752, 0x3BA9, 0xBDD5, 0xFEEB, 0xDF74, 0x6FBA, 0x37DD);
    ByteStep([0x31, 0x32, 0x33, 0x34, 0x35, 0x36, 0x37, 0x38], 0x39,
             [0x31, 0x32, 0x33, 0x34, 0x35, 0x36, 0x37, 0x38, 0x39],
             0x37E4, 0x1BF2, 0x0DF9, 0xA6FD, 0xF37F, 0xD9BE, 0x6CDF, 0x966E, 0x4B37);
  }

  lemma NothingYet()
    ensures Checksum([]) == 0xFFFF
  {
  }
}
