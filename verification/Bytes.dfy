/** Bytes, fixed-width unsigned integers and the two byte orders. */
module Bytes {

  type byte = x: int | 0 <= x < 0x100
  type uint16 = x: int | 0 <= x < 0x1_0000
  type uint32 = x: int | 0 <= x < 0x1_0000_0000

  /** Reduction to 32 bits. */
  function Wrap32(x: int): uint32 {
    x % 0x1_0000_0000
  }

  lemma WrapSmall(a: uint32)
    ensures Wrap32(a) == a
  {
  }

  /** A 32-bit word read as `int32_t`. */
  function AsInt32(x: uint32): int {
    if x < 0x8000_0000 then x else x - 0x1_0000_0000
  }

  lemma AsInt32Meaning(x: uint32)
    ensures -0x8000_0000 <= AsInt32(x) < 0x8000_0000
    ensures (AsInt32(x) - x) % 0x1_0000_0000 == 0
  {
  }

  /** The order in which a host stores the two halves of a 16-bit word. */
  datatype Endian = Little | Big

  /** The 16-bit word whose two bytes are stored in the given order. */
  function Word16(order: Endian, first: byte, second: byte): uint16 {
    if order.Big? then 0x100 * first + second else 0x100 * second + first
  }

  /** The two halves of a 16-bit word exchanged. */
  function Swap(w: uint16): uint16 {
    0x100 * (w % 0x100) + w / 0x100
  }

  /** What `htons` followed by a 16-bit store leaves in memory. */
  function Network16(v: uint16): (r: seq<byte>)
    ensures |r| == 2
  {
    [v / 0x100, v % 0x100]
  }

  /** Memory `m` after the 16-bit value `v` is stored at `off` in network order. */
  function Put16(m: seq<byte>, off: nat, v: uint16): (r: seq<byte>)
    requires off + 2 <= |m|
    ensures |r| == |m|
    ensures forall i :: 0 <= i < |m| && i != off && i != off + 1 ==> r[i] == m[i]
  {
    m[off := v / 0x100][off + 1 := v % 0x100]
  }

  lemma PutReadsBack(m: seq<byte>, off: nat, v: uint16)
    requires off + 2 <= |m|
    ensures var r := Put16(m, off, v); Word16(Big, r[off], r[off + 1]) == v
  {
  }

  lemma PutTwice(m: seq<byte>, off: nat, v: uint16, w: uint16)
    requires off + 2 <= |m|
    ensures Put16(Put16(m, off, v), off, w) == Put16(m, off, w)
  {
  }

  function LittleEndian16(m: seq<byte>, off: nat): uint16
    requires off + 2 <= |m|
  {
    Word16(Little, m[off], m[off + 1])
  }

  function LittleEndian32(m: seq<byte>, off: nat): uint32
    requires off + 4 <= |m|
  {
    LittleEndian16(m, off) as int + 0x1_0000 * (LittleEndian16(m, off + 2) as int)
  }
}
