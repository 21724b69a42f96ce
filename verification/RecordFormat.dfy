/**
 The byte format of the flash queue: packed little-endian 16-byte headers, the
 register payload behind them, and the marker that closes a lap of the file.
*/
module RecordFormat {

  import opened Words
  import Crc16

  const HEADER_BYTES: nat := 16
  const MAGIC_DATA: dword := 0x52454344
  const MAGIC_WRAP: dword := 0x57524150

  datatype Header = Header(
    magic: dword, timestamp: dword, startReg: word, regCount: word,
    slaveAddr: byte, flags: byte, payloadCrc: word)

  /** A stored sample, with the checksum its header carries. */
  datatype Record = Record(
    timestamp: dword, startReg: word, regCount: word, slaveAddr: byte,
    payloadCrc: word, registers: seq<word>)
  {
    predicate Valid() {
      |registers| == Count(regCount)
    }

    /** The payload is the one the checksum was computed for. */
    predicate Intact() {
      payloadCrc == Crc16.Checksum(WordsToBytes(registers))
    }

    function HeaderOf(): Header {
      Header(MAGIC_DATA, timestamp, startReg, regCount, slaveAddr, 0, payloadCrc)
    }
  }

  const WRAP_HEADER := Header(MAGIC_WRAP, 0, 0, 0, 0, 0, 0)

  function RecordSize(regCount: word): (bytes: nat)
  {
    HEADER_BYTES + 2 * Count(regCount)
  }

  // ---------------------------------------------------------------- little-endian fields

  function LowByte(w: word): byte {
    (w & 0xFF) as byte
  }

  function HighByte(w: word): byte {
    (w >> 8) as byte
  }

  function WordOf(lo: byte, hi: byte): word {
    (lo as word) | ((hi as word) << 8)
  }

  function LowWord(d: dword): word {
    (d & 0xFFFF) as word
  }

  function HighWord(d: dword): word {
    (d >> 16) as word
  }

  function DwordOf(lo: word, hi: word): dword {
    (lo as dword) | ((hi as dword) << 16)
  }

  lemma WordRoundTrip(w: word)
    ensures WordOf(LowByte(w), HighByte(w)) == w
  {
  }

  lemma ByteRoundTrip(lo: byte, hi: byte)
    ensures LowByte(WordOf(lo, hi)) == lo && HighByte(WordOf(lo, hi)) == hi
  {
  }

  lemma DwordRoundTrip(d: dword)
    ensures DwordOf(LowWord(d), HighWord(d)) == d
  {
  }

  function WordBytes(w: word): (b: seq<byte>)
    ensures |b| == 2
  {
    [LowByte(w), HighByte(w)]
  }

  // ---------------------------------------------------------------- headers

  function EncodeHeader(h: Header): (b: seq<byte>)
    ensures |b| == HEADER_BYTES
  {
    [LowByte(LowWord(h.magic)), HighByte(LowWord(h.magic)),
     LowByte(HighWord(h.magic)), HighByte(HighWord(h.magic)),
     LowByte(LowWord(h.timestamp)), HighByte(LowWord(h.timestamp)),
     LowByte(HighWord(h.timestamp)), HighByte(HighWord(h.timestamp)),
     LowByte(h.startReg), HighByte(h.startReg),
     LowByte(h.regCount), HighByte(h.regCount),
     h.slaveAddr, h.flags,
     LowByte(h.payloadCrc), HighByte(h.payloadCrc)]
  }

  function DecodeWord(b: seq<byte>, at: nat): word
    requires at + 2 <= |b|
  {
    WordOf(b[at], b[at + 1])
  }

  function DecodeDword(b: seq<byte>, at: nat): dword
    requires at + 4 <= |b|
  {
    DwordOf(DecodeWord(b, at), DecodeWord(b, at + 2))
  }

  function DecodeHeader(b: seq<byte>): Header
    requires |b| == HEADER_BYTES
  {
    Header(DecodeDword(b, 0), DecodeDword(b, 4), DecodeWord(b, 8), DecodeWord(b, 10),
           b[12], b[13], DecodeWord(b, 14))
  }

  lemma WordAt(b: seq<byte>, at: nat, w: word)
    requires at + 2 <= |b| && b[at] == LowByte(w) && b[at + 1] == HighByte(w)
    ensures DecodeWord(b, at) == w
  {
    WordRoundTrip(w);
  }

  lemma DwordAt(b: seq<byte>, at: nat, d: dword)
    requires at + 4 <= |b|
    requires b[at] == LowByte(LowWord(d)) && b[at + 1] == HighByte(LowWord(d))
    requires b[at + 2] == LowByte(HighWord(d)) && b[at + 3] == HighByte(HighWord(d))
    ensures DecodeDword(b, at) == d
  {
    hide LowByte, HighByte, LowWord, HighWord, WordOf, DwordOf;
    WordAt(b, at, LowWord(d));
    WordAt(b, at + 2, HighWord(d));
    DwordRoundTrip(d);
  }

  lemma LongFieldsRoundTrip(h: Header)
    ensures DecodeDword(EncodeHeader(h), 0) == h.magic
    ensures DecodeDword(EncodeHeader(h), 4) == h.timestamp
  {
    hide LowByte, HighByte, LowWord, HighWord, DecodeWord, DecodeDword;
    var b := EncodeHeader(h);
    DwordAt(b, 0, h.magic);
    DwordAt(b, 4, h.timestamp);
  }

  lemma ShortFieldsRoundTrip(h: Header)
    ensures DecodeWord(EncodeHeader(h), 8) == h.startReg
    ensures DecodeWord(EncodeHeader(h), 10) == h.regCount
    ensures DecodeWord(EncodeHeader(h), 14) == h.payloadCrc
  {
    hide LowByte, HighByte, LowWord, HighWord, DecodeWord;
    var b := EncodeHeader(h);
    WordAt(b, 8, h.startReg);
    WordAt(b, 10, h.regCount);
    WordAt(b, 14, h.payloadCrc);
  }

  lemma HeaderRoundTrip(h: Header)
    ensures DecodeHeader(EncodeHeader(h)) == h
  {
    hide LowByte, HighByte, LowWord, HighWord, DecodeWord, DecodeDword;
    LongFieldsRoundTrip(h);
    ShortFieldsRoundTrip(h);
  }

  // ---------------------------------------------------------------- payloads

  function WordsToBytes(ws: seq<word>): (b: seq<byte>)
    ensures |b| == 2 * |ws|
  {
    if ws == [] then [] else WordBytes(ws[0]) + WordsToBytes(ws[1..])
  }

  function BytesToWords(b: seq<byte>): (ws: seq<word>)
    requires |b| % 2 == 0
    ensures |ws| == |b| / 2
  {
    if b == [] then [] else [WordOf(b[0], b[1])] + BytesToWords(b[2..])
  }

  lemma {:induction false} PayloadRoundTrip(ws: seq<word>)
    ensures BytesToWords(WordsToBytes(ws)) == ws
  {
    hide LowByte, HighByte, WordOf;
    if ws != [] {
      WordRoundTrip(ws[0]);
      PayloadRoundTrip(ws[1..]);
      assert WordsToBytes(ws)[2..] == WordsToBytes(ws[1..]);
    }
  }

  lemma {:induction false} BytesRoundTrip(b: seq<byte>)
    requires |b| % 2 == 0
    ensures WordsToBytes(BytesToWords(b)) == b
  {
    hide LowByte, HighByte, WordOf;
    if b != [] {
      ByteRoundTrip(b[0], b[1]);
      BytesRoundTrip(b[2..]);
      assert BytesToWords(b)[1..] == BytesToWords(b[2..]);
      assert b == [b[0], b[1]] + b[2..];
    }
  }

  // ---------------------------------------------------------------- whole records

  function Encode(r: Record): (b: seq<byte>)
    requires r.Valid()
    ensures |b| == RecordSize(r.regCount)
  {
    EncodeHeader(r.HeaderOf()) + WordsToBytes(r.registers)
  }

  /** A record's header and payload are read back exactly from its bytes. */
  lemma RecordRoundTrip(r: Record)
    requires r.Valid()
    ensures DecodeHeader(Encode(r)[..HEADER_BYTES]) == r.HeaderOf()
    ensures Encode(r)[HEADER_BYTES..] == WordsToBytes(r.registers)
    ensures BytesToWords(Encode(r)[HEADER_BYTES..]) == r.registers
  {
    hide EncodeHeader, DecodeHeader, WordsToBytes, BytesToWords;
    assert Encode(r)[..HEADER_BYTES] == EncodeHeader(r.HeaderOf());
    assert Encode(r)[HEADER_BYTES..] == WordsToBytes(r.registers);
    HeaderRoundTrip(r.HeaderOf());
    PayloadRoundTrip(r.registers);
  }

  lemma EncodeIsInjective(a: Record, b: Record)
    requires a.Valid() && b.Valid() && Encode(a) == Encode(b)
    ensures a == b
  {
    hide Encode, DecodeHeader, BytesToWords;
    RecordRoundTrip(a);
    RecordRoundTrip(b);
  }

  // ---------------------------------------------------------------- the bytes themselves

  /** A 16-bit number, its low byte first. */
  predicate LittleWord(b: seq<byte>, at: nat, w: word) {
    at + 2 <= |b| && (b[at] as word) + (b[at + 1] as word) * 0x100 == w
  }

  /** A 32-bit number, its lowest byte first. */
  predicate LittleDword(b: seq<byte>, at: nat, d: dword) {
    at + 4 <= |b|
    && (b[at] as dword) + (b[at + 1] as dword) * 0x100 + (b[at + 2] as dword) * 0x10000
       + (b[at + 3] as dword) * 0x1000000 == d
  }

  lemma WordIsLittle(b: seq<byte>, at: nat, w: word)
    requires at + 2 <= |b| && b[at] == LowByte(w) && b[at + 1] == HighByte(w)
    ensures LittleWord(b, at, w)
  {
  }

  lemma DwordIsLittle(b: seq<byte>, at: nat, d: dword)
    requires at + 4 <= |b|
    requires b[at] == LowByte(LowWord(d)) && b[at + 1] == HighByte(LowWord(d))
    requires b[at + 2] == LowByte(HighWord(d)) && b[at + 3] == HighByte(HighWord(d))
    ensures LittleDword(b, at, d)
  {
  }

  /** The sixteen bytes of a header: packed, little-endian. */
  ghost predicate HeaderBytes(b: seq<byte>, h: Header) {
    && |b| >= 16 && LittleDword(b, 0, h.magic) && LittleDword(b, 4, h.timestamp) && LittleWord(b, 8, h.startReg)
    && LittleWord(b, 10, h.regCount) && b[12] == h.slaveAddr && b[13] == h.flags && LittleWord(b, 14, h.payloadCrc)
  }

  lemma LongFieldsPacked(h: Header)
    ensures LittleDword(EncodeHeader(h), 0, h.magic) && LittleDword(EncodeHeader(h), 4, h.timestamp)
  {
    hide LowByte, HighByte, LowWord, HighWord, LittleDword;
    var b := EncodeHeader(h);
    DwordIsLittle(b, 0, h.magic);
    DwordIsLittle(b, 4, h.timestamp);
  }

  lemma ShortFieldsPacked(h: Header)
    ensures LittleWord(EncodeHeader(h), 8, h.startReg) && LittleWord(EncodeHeader(h), 10, h.regCount)
    ensures LittleWord(EncodeHeader(h), 14, h.payloadCrc)
    ensures EncodeHeader(h)[12] == h.slaveAddr && EncodeHeader(h)[13] == h.flags
  {
    hide LowByte, HighByte, LowWord, HighWord, LittleWord;
    var b := EncodeHeader(h);
    WordIsLittle(b, 8, h.startReg);
    WordIsLittle(b, 10, h.regCount);
    WordIsLittle(b, 14, h.payloadCrc);
  }

  lemma HeaderIsPacked(h: Header)
    ensures HeaderBytes(EncodeHeader(h), h)
  {
    hide EncodeHeader, LittleWord, LittleDword;
    LongFieldsPacked(h);
    ShortFieldsPacked(h);
  }

  lemma {:induction false} PayloadIsLittle(ws: seq<word>, i: nat)
    requires i < |ws|
    ensures LittleWord(WordsToBytes(ws), 2 * i, ws[i])
  {
    hide LowByte, HighByte, LittleWord;
    var b := WordsToBytes(ws);
    if i == 0 {
      WordIsLittle(b, 0, ws[0]);
    } else {
      PayloadIsLittle(ws[1..], i - 1);
      assert b[2..] == WordsToBytes(ws[1..]);
      LittleWordShifts(b, 2, 2 * (i - 1), ws[i]);
    }
  }

  lemma LittleWordShifts(b: seq<byte>, from: nat, at: nat, w: word)
    requires from <= |b| && LittleWord(b[from..], at, w)
    ensures LittleWord(b, from + at, w)
  {
    assert b[from..][at] == b[from + at] && b[from..][at + 1] == b[from + at + 1];
  }

  /** The bytes of a stored sample: its description, its checksum and its words. */
  ghost predicate SampleBytes(b: seq<byte>, timestamp: dword, startReg: word, regCount: word, slaveAddr: byte,
      payloadCrc: word, registers: seq<word>)
  {
    && |b| == 16 + 2 * |registers|
    && HeaderBytes(b[..16], Header(0x52454344, timestamp, startReg, regCount, slaveAddr, 0, payloadCrc))
    && forall i :: 0 <= i < |registers| ==> LittleWord(b, 16 + 2 * i, registers[i])
  }

  lemma RecordIsPacked(r: Record)
    requires r.Valid()
    ensures SampleBytes(Encode(r), r.timestamp, r.startReg, r.regCount, r.slaveAddr, r.payloadCrc, r.registers)
  {
    hide EncodeHeader, HeaderBytes, LittleWord, WordsToBytes;
    var b, h := Encode(r), r.HeaderOf();
    HeaderIsPacked(h);
    assert b[..16] == EncodeHeader(h) && b[16..] == WordsToBytes(r.registers);
    forall i | 0 <= i < |r.registers|
      ensures LittleWord(b, 16 + 2 * i, r.registers[i])
    {
      PayloadIsLittle(r.registers, i);
      LittleWordShifts(b, 16, 2 * i, r.registers[i]);
    }
  }

  /** The marker: the letters PARW and twelve zeros. */
  lemma MarkerBytes()
    ensures EncodeHeader(WRAP_HEADER) == [0x50, 0x41, 0x52, 0x57, 0, 0, 0, 0, 0, 0, 0, 0, 0, 0, 0, 0]
  {
  }
}
