/**
 The record checksum of the flash queue: CRC-16/MODBUS, the error check of
 section 6.2.2 of the MODBUS over Serial Line Specification and Implementation
 Guide V1.02.  The byte loop of the firmware is proved equal to a one-bit-at-a-time
 shift register over the message's bits, and that register is proved to detect
 every burst of at most sixteen bits.

 Bit-vector facts are kept in lemmas of their own; the inductions see only the names.
*/
module Crc16 {

  import opened Words

  const INITIAL: word := 0xFFFF
  const POLYNOMIAL: word := 0xA001

  predicate LowBit(x: word) {
    x & 1 == 1
  }

  function Halve(x: word): word {
    x >> 1
  }

  function Xor(a: word, b: word): word {
    a ^ b
  }

  /** One turn of the inner loop: shift right, and fold the polynomial in if a one fell out. */
  function Shift(c: word): word {
    if LowBit(c) then Xor(Halve(c), POLYNOMIAL) else Halve(c)
  }

  function Shifts(c: word, n: nat): word
    decreases n
  {
    if n == 0 then c else Shifts(Shift(c), n - 1)
  }

  /** The register after `data`, starting from `c`. */
  function Register(c: word, data: seq<byte>): word {
    if data == [] then c
    else Shifts(Xor(Register(c, data[..|data| - 1]), data[|data| - 1] as word), 8)
  }

  function Checksum(data: seq<byte>): word {
    Register(INITIAL, data)
  }

  /** The bit loop: eight shifts of the register. */
  method ShiftByteOut(loaded: word) returns (crc: word)
    ensures crc == Shifts(loaded, 8)
  {
    crc := loaded;
    for b := 0 to 8
      invariant Shifts(crc, 8 - b) == Shifts(loaded, 8)
    {
      if crc & 1 == 1 {
        crc := (crc >> 1) ^ 0xA001;
      } else {
        crc := crc >> 1;
      }
    }
  }

  /** The checksum loop of the firmware. */
  method Crc16Modbus(data: seq<byte>) returns (crc: word)
    ensures crc == Checksum(data)
  {
    hide Shifts;
    crc := INITIAL;
    for i := 0 to |data|
      invariant crc == Register(INITIAL, data[..i])
    {
      assert data[..i + 1][..i] == data[..i];
      crc := ShiftByteOut(crc ^ (data[i] as word));
    }
    assert data[..|data|] == data;
  }

  // ---------------------------------------------------------------- one bit at a time

  function Bit(b: bool): word {
    if b then 1 else 0
  }

  /** One message bit enters the register. */
  function Feed(c: word, b: bool): word {
    Shift(Xor(c, Bit(b)))
  }

  /** The serial form of the same register: one message bit enters per shift. */
  function Serial(c: word, bits: seq<bool>): word
    decreases |bits|
  {
    if bits == [] then c else Serial(Feed(c, bits[0]), bits[1..])
  }

  function BitsFrom(x: word, n: nat): (bits: seq<bool>)
    ensures |bits| == n
    decreases n
  {
    if n == 0 then [] else [LowBit(x)] + BitsFrom(Halve(x), n - 1)
  }

  /** The bits of a message in the order they are shifted in: least significant bit of each byte first. */
  function MessageBits(data: seq<byte>): (bits: seq<bool>)
    ensures |bits| == 8 * |data|
  {
    if data == [] then [] else MessageBits(data[..|data| - 1]) + BitsFrom(data[|data| - 1] as word, 8)
  }

  // ---------------------------------------------------------------- bit-vector facts

  lemma LowBitOfXor(a: word, b: word)
    ensures LowBit(Xor(a, b)) <==> LowBit(a) != LowBit(b)
  {
  }

  lemma HalveOfXor(a: word, b: word)
    ensures Halve(Xor(a, b)) == Xor(Halve(a), Halve(b))
  {
  }

  lemma XorMovesConstant(p: word, q: word, k: word)
    ensures Xor(Xor(p, q), k) == Xor(Xor(p, k), q) == Xor(p, Xor(q, k))
    ensures Xor(Xor(p, k), Xor(q, k)) == Xor(p, q)
  {
  }

  lemma ShiftIsLinear(a: word, b: word)
    ensures Shift(Xor(a, b)) == Xor(Shift(a), Shift(b))
  {
    hide Halve, Xor, LowBit;
    LowBitOfXor(a, b);
    HalveOfXor(a, b);
    XorMovesConstant(Halve(a), Halve(b), POLYNOMIAL);
  }

  /** The polynomial's top bit records whether a one fell out, so no two registers collide. */
  lemma ShiftIsInjective(a: word, b: word)
    requires Shift(a) == Shift(b)
    ensures a == b
  {
  }

  lemma XorCancelsRight(a: word, b: word, e: word)
    requires Xor(a, e) == Xor(b, e)
    ensures a == b
  {
  }

  lemma FeedIsInjective(a: word, b: word, e: bool)
    requires Feed(a, e) == Feed(b, e)
    ensures a == b
  {
    hide Shift, Bit, Xor;
    ShiftIsInjective(Xor(a, Bit(e)), Xor(b, Bit(e)));
    XorCancelsRight(a, b, Bit(e));
  }

  lemma XorCancelsLeft(d: word, a: word, b: word)
    requires Xor(d, a) == Xor(d, b)
    ensures a == b
  {
  }

  lemma XorZero(d: word)
    ensures Xor(d, 0) == d
  {
  }

  predicate TopBitClear(x: word) {
    x & 0x8000 == 0
  }

  function Delay(p: word): word {
    p << 1
  }

  /** `b` in front of the bits packed in `p`. */
  function Join(p: word, b: bool): word {
    Xor(Delay(p), Bit(b))
  }

  lemma HalveOfJoin(p: word, b: bool)
    requires TopBitClear(p)
    ensures Halve(Join(p, b)) == p && LowBit(Join(p, b)) == b
  {
  }

  lemma JoinOfHalve(x: word)
    ensures Join(Halve(x), LowBit(x)) == x
  {
  }

  lemma ShiftOfDelayed(p: word)
    requires TopBitClear(p)
    ensures Shift(Delay(p)) == p
  {
  }

  lemma XorRegroup(d: word, q: word, e: word)
    ensures Xor(d, Xor(q, e)) == Xor(Xor(d, e), q)
  {
  }

  /** A bit that waits behind the first one is not disturbed by the shift that takes the first one in. */
  lemma ShiftTakesFirst(d: word, p: word, b: bool)
    requires TopBitClear(p)
    ensures Shift(Xor(d, Join(p, b))) == Xor(Feed(d, b), p)
  {
    hide Shift, Xor, Delay, Bit, TopBitClear;
    ShiftOfDelayed(p);
    XorRegroup(d, Delay(p), Bit(b));
    ShiftIsLinear(Xor(d, Bit(b)), Delay(p));
  }

  /** `x` needs at most `n` bits. */
  predicate Fits(x: word, n: nat)
    decreases n
  {
    if n == 0 then x == 0 else Fits(Halve(x), n - 1)
  }

  lemma FitsByNibble(x: word, n: nat)
    requires n >= 4
    ensures Fits(x, n) == Fits(x >> 4, n - 4)
  {
    var y := Halve(x);
    var z := Halve(y);
    var w := Halve(z);
    assert Fits(x, n) == Fits(y, n - 1);
    assert Fits(y, n - 1) == Fits(z, n - 2);
    assert Fits(z, n - 2) == Fits(w, n - 3);
    assert Halve(w) == x >> 4;
  }

  lemma ByteFits(b: byte)
    ensures Fits(b as word, 8)
  {
    FitsByNibble(b as word, 8);
    FitsByNibble((b as word) >> 4, 4);
    ByteClears(b);
  }

  lemma ByteClears(b: byte)
    ensures ((b as word) >> 4) >> 4 == 0
  {
  }

  lemma FitsFifteen(x: word)
    requires Fits(x, 15)
    ensures TopBitClear(x)
  {
    FitsByNibble(x, 15);
    FitsByNibble(x >> 4, 11);
    FitsByNibble(x >> 4 >> 4, 7);
    if !TopBitClear(x) {
      TopNibble(x);
    }
    var y := x >> 4 >> 4 >> 4;
    assert Fits(y, 3) == Fits(Halve(y), 2);
    assert Fits(Halve(y), 2) == Fits(Halve(Halve(y)), 1);
  }

  lemma TopNibble(x: word)
    requires !TopBitClear(x)
    ensures Halve(Halve(Halve(x >> 4 >> 4 >> 4))) != 0
  {
  }

  // ---------------------------------------------------------------- inductions over messages

  lemma {:induction false} FitsGrows(x: word, n: nat, m: nat)
    requires Fits(x, n) && n <= m
    ensures Fits(x, m)
    decreases m
  {
    if n > 0 {
      FitsGrows(Halve(x), n - 1, m - 1);
    } else if m > 0 {
      FitsGrows(0, 0, m - 1);
    }
  }

  /** The bits as one number, first bit lowest. */
  function Pack(bits: seq<bool>): word {
    if bits == [] then 0 else Join(Pack(bits[1..]), bits[0])
  }

  lemma {:induction false} PackFits(bits: seq<bool>)
    requires |bits| <= 16
    ensures Fits(Pack(bits), |bits|)
    decreases |bits|, 0
  {
    if bits != [] {
      hide Join, Halve, LowBit, TopBitClear;
      PackFits(bits[1..]);
      PackIsSmall(bits[1..]);
      HalveOfJoin(Pack(bits[1..]), bits[0]);
    }
  }

  lemma {:induction false} PackIsSmall(bits: seq<bool>)
    requires |bits| <= 15
    ensures TopBitClear(Pack(bits))
    decreases |bits|, 1
  {
    PackFits(bits);
    FitsGrows(Pack(bits), |bits|, 15);
    FitsFifteen(Pack(bits));
  }

  lemma {:induction false} PackBitsFrom(x: word, n: nat)
    requires Fits(x, n)
    ensures Pack(BitsFrom(x, n)) == x
    decreases n
  {
    if n > 0 {
      hide Join, Halve, LowBit;
      PackBitsFrom(Halve(x), n - 1);
      JoinOfHalve(x);
      assert BitsFrom(x, n)[1..] == BitsFrom(Halve(x), n - 1);
    }
  }

  lemma {:induction false} PackIsInjective(x: seq<bool>, y: seq<bool>)
    requires |x| == |y| <= 16 && Pack(x) == Pack(y)
    ensures x == y
    decreases |x|
  {
    if x != [] {
      hide Join, Halve, LowBit, TopBitClear;
      PackIsSmall(x[1..]);
      PackIsSmall(y[1..]);
      HalveOfJoin(Pack(x[1..]), x[0]);
      HalveOfJoin(Pack(y[1..]), y[0]);
      PackIsInjective(x[1..], y[1..]);
      assert x == [x[0]] + x[1..] && y == [y[0]] + y[1..];
    }
  }

  lemma {:induction false} ShiftsAreInjective(a: word, b: word, n: nat)
    requires Shifts(a, n) == Shifts(b, n)
    ensures a == b
    decreases n
  {
    hide Shift;
    if n > 0 {
      ShiftsAreInjective(Shift(a), Shift(b), n - 1);
      ShiftIsInjective(a, b);
    }
  }

  lemma {:induction false} SerialIsInjective(a: word, b: word, bits: seq<bool>)
    requires Serial(a, bits) == Serial(b, bits)
    ensures a == b
    decreases |bits|
  {
    hide Feed;
    if bits != [] {
      SerialIsInjective(Feed(a, bits[0]), Feed(b, bits[0]), bits[1..]);
      FeedIsInjective(a, b, bits[0]);
    }
  }

  lemma {:induction false} SerialConcat(c: word, x: seq<bool>, y: seq<bool>)
    ensures Serial(c, x + y) == Serial(Serial(c, x), y)
    decreases |x|
  {
    hide Feed;
    if x == [] {
      assert x + y == y;
    } else {
      assert (x + y)[1..] == x[1..] + y;
      SerialConcat(Feed(c, x[0]), x[1..], y);
    }
  }

  /** Feeding at most sixteen bits one by one is the same as loading them all and shifting. */
  lemma {:induction false} SerialLoadsAtOnce(d: word, bits: seq<bool>)
    requires |bits| <= 16
    ensures Serial(d, bits) == Shifts(Xor(d, Pack(bits)), |bits|)
    decreases |bits|
  {
    hide Feed, Shift, Xor, Join, TopBitClear;
    if bits == [] {
      XorZero(d);
    } else {
      SerialLoadsAtOnce(Feed(d, bits[0]), bits[1..]);
      PackIsSmall(bits[1..]);
      ShiftTakesFirst(d, Pack(bits[1..]), bits[0]);
    }
  }

  /** The byte loop of the firmware is the serial register over the message's bits. */
  lemma {:induction false} RegisterIsSerial(c: word, data: seq<byte>)
    ensures Register(c, data) == Serial(c, MessageBits(data))
    decreases |data|
  {
    hide Feed, Shift, Xor, Join, Serial, Shifts, BitsFrom, Fits, Pack;
    if data != [] {
      var init, last := data[..|data| - 1], data[|data| - 1];
      RegisterIsSerial(c, init);
      SerialConcat(c, MessageBits(init), BitsFrom(last as word, 8));
      SerialLoadsAtOnce(Register(c, init), BitsFrom(last as word, 8));
      ByteFits(last);
      PackBitsFrom(last as word, 8);
    } else {
      SerialOfNothing(c);
    }
  }

  lemma SerialOfNothing(c: word)
    ensures Serial(c, []) == c
  {
  }

  // ---------------------------------------------------------------- burst detection

  /** `x` and `y` agree outside the sixteen bits that start at `p`. */
  ghost predicate WithinBurst(x: seq<bool>, y: seq<bool>, p: nat) {
    && |x| == |y|
    && forall i :: 0 <= i < |x| && !(p <= i < p + 16) ==> x[i] == y[i]
  }

  /** Two different strings of at most sixteen bits leave different registers. */
  lemma SerialSeparatesShort(d: word, x: seq<bool>, y: seq<bool>)
    requires |x| == |y| <= 16 && Serial(d, x) == Serial(d, y)
    ensures x == y
  {
    hide Feed, Shift, Xor, Join, Serial, Shifts, Pack;
    SerialLoadsAtOnce(d, x);
    SerialLoadsAtOnce(d, y);
    ShiftsAreInjective(Xor(d, Pack(x)), Xor(d, Pack(y)), |x|);
    XorCancelsLeft(d, Pack(x), Pack(y));
    PackIsInjective(x, y);
  }

  /** Two different bit strings that agree outside sixteen consecutive bits leave different registers. */
  lemma SerialDetectsBurst(c: word, x: seq<bool>, y: seq<bool>, p: nat)
    requires WithinBurst(x, y, p) && x != y
    ensures Serial(c, x) != Serial(c, y)
  {
    hide Serial, Feed;
    var lo := if p <= |x| then p else |x|;
    var hi := if p + 16 <= |x| then p + 16 else |x|;
    assert x[..lo] == y[..lo] && x[hi..] == y[hi..];
    assert x == x[..lo] + x[lo..hi] + x[hi..] && y == y[..lo] + y[lo..hi] + y[hi..];
    var d := Serial(c, x[..lo]);
    SerialConcat(c, x[..lo] + x[lo..hi], x[hi..]);
    SerialConcat(c, y[..lo] + y[lo..hi], y[hi..]);
    SerialConcat(c, x[..lo], x[lo..hi]);
    SerialConcat(c, y[..lo], y[lo..hi]);
    if Serial(c, x) == Serial(c, y) {
      SerialIsInjective(Serial(d, x[lo..hi]), Serial(d, y[lo..hi]), x[hi..]);
      SerialSeparatesShort(d, x[lo..hi], y[lo..hi]);
    }
  }

  lemma BytesAreTheirBits(a: byte, b: byte)
    requires BitsFrom(a as word, 8) == BitsFrom(b as word, 8)
    ensures a == b
  {
    ByteFits(a);
    ByteFits(b);
    PackBitsFrom(a as word, 8);
    PackBitsFrom(b as word, 8);
    WideningIsInjective(a, b);
  }

  lemma WideningIsInjective(a: byte, b: byte)
    requires a as word == b as word
    ensures a == b
  {
  }

  /** Bits of byte `i` are the message bits from `8 * i`. */
  lemma {:induction false} BitsOfByte(x: seq<byte>, i: nat)
    requires i < |x|
    ensures MessageBits(x)[8 * i..8 * i + 8] == BitsFrom(x[i] as word, 8)
  {
    hide BitsFrom, MessageBits;
    var n := |x| - 1;
    var init := x[..n];
    LastByteBits(x);
    if i < n {
      BitsOfByte(init, i);
      assert init[i] == x[i];
      SliceOfFirst(MessageBits(init), BitsFrom(x[n] as word, 8), 8 * i, 8 * i + 8);
    } else {
      SliceOfSecond(MessageBits(init), BitsFrom(x[n] as word, 8));
    }
  }

  lemma LastByteBits(x: seq<byte>)
    requires x != []
    ensures MessageBits(x) == MessageBits(x[..|x| - 1]) + BitsFrom(x[|x| - 1] as word, 8)
  {
    hide BitsFrom;
  }

  lemma SliceOfFirst(a: seq<bool>, b: seq<bool>, lo: nat, hi: nat)
    requires lo <= hi <= |a|
    ensures (a + b)[lo..hi] == a[lo..hi]
  {
  }

  lemma SliceOfSecond(a: seq<bool>, b: seq<bool>)
    ensures (a + b)[|a|..|a| + |b|] == b
  {
  }

  lemma MessageBitsAreInjective(x: seq<byte>, y: seq<byte>)
    requires |x| == |y| && MessageBits(x) == MessageBits(y)
    ensures x == y
  {
    hide MessageBits, BitsFrom;
    forall i | 0 <= i < |x|
      ensures x[i] == y[i]
    {
      BitsOfByte(x, i);
      BitsOfByte(y, i);
      BytesAreTheirBits(x[i], y[i]);
    }
  }

  /** Any change of a payload that stays inside sixteen consecutive bits changes its checksum. */
  lemma ChecksumDetectsBurst(x: seq<byte>, y: seq<byte>, p: nat)
    requires |x| == |y| && x != y
    requires WithinBurst(MessageBits(x), MessageBits(y), p)
    ensures Checksum(x) != Checksum(y)
  {
    hide MessageBits, Serial, Register;
    if MessageBits(x) == MessageBits(y) {
      MessageBitsAreInjective(x, y);
    }
    RegisterIsSerial(INITIAL, x);
    RegisterIsSerial(INITIAL, y);
    SerialDetectsBurst(INITIAL, MessageBits(x), MessageBits(y), p);
  }

  /** In particular, damage confined to two adjacent bytes is detected. */
  lemma ChecksumDetectsTwoBytes(x: seq<byte>, y: seq<byte>, k: nat)
    requires |x| == |y| && x != y
    requires forall i :: 0 <= i < |x| && i != k && i != k + 1 ==> x[i] == y[i]
    ensures Checksum(x) != Checksum(y)
  {
    hide MessageBits, BitsFrom, Checksum;
    var a, b := MessageBits(x), MessageBits(y);
    forall j | 0 <= j < |a| && !(8 * k <= j < 8 * k + 16)
      ensures a[j] == b[j]
    {
      var i := j / 8;
      assert i != k && i != k + 1;
      BitsOfByte(x, i);
      BitsOfByte(y, i);
      assert a[j] == a[8 * i..8 * i + 8][j - 8 * i] && b[j] == b[8 * i..8 * i + 8][j - 8 * i];
    }
    ChecksumDetectsBurst(x, y, 8 * k);
  }
}
