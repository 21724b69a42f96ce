/** Machine words of the firmware and the error codes its calls return. */
module Words {

  type byte = bv8
  type word = bv16
  type dword = bv32

  /** The numbers a word can stand for. */
  type u16 = x: nat | x < 0x1_0000

  datatype Esp = Ok | Fail | InvalidState | InvalidArg | InvalidSize | InvalidCrc | NotFound | NoMem

  /** The number a register count stands for. */
  function Count(w: word): nat {
    w as nat
  }

  /** `bytes` written over `data` at `offset`; the rest stays. */
  function Overwrite(data: seq<byte>, offset: nat, bytes: seq<byte>): (r: seq<byte>)
    requires offset + |bytes| <= |data|
    ensures |r| == |data|
  {
    data[..offset] + bytes + data[offset + |bytes|..]
  }
}
