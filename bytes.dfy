/**
 * The machine-level vocabulary of the checksum code: C#'s `int`, `uint` and
 * `byte`, a `byte[]` buffer's contents, and the two conversions of .NET's
 * `BitConverter` that the hash uses. The host is assumed little-endian, as
 * `BitConverter` is on every platform the tool runs on.
 */
module Bytes {
  import opened Wrappers

  type byte = bv8

  /** C# `int`. */
  type int32 = x: int | -0x8000_0000 <= x < 0x8000_0000

  /** C# `uint`. */
  type uint32 = x: int | 0 <= x < 0x1_0000_0000

  /** A .NET array is indexed by `int`, so a `byte[]` holds at most int.MaxValue bytes. */
  const MaxArrayLength: int := 0x7FFF_FFFF

  /** The contents of a `byte[]`. */
  type Buffer = s: seq<byte> | |s| <= MaxArrayLength

  /** The unchecked cast `(int)x` of a value that C# computed in 64 bits. */
  function WrapInt32(x: int): (r: int32)
    ensures -0x8000_0000 <= x < 0x8000_0000 ==> r == x
    ensures (r - x) % 0x1_0000_0000 == 0
  {
    (x + 0x8000_0000) % 0x1_0000_0000 - 0x8000_0000
  }

  /** Whether four bytes starting at `index` lie inside a buffer of `n` bytes. */
  predicate InBounds4(n: int, index: int)
  {
    0 <= index && index + 4 <= n
  }

  /** Four bytes read as a little-endian 32-bit word. */
  function LoadLE(b0: byte, b1: byte, b2: byte, b3: byte): bv32
  {
    (b0 as bv32) | ((b1 as bv32) << 8) | ((b2 as bv32) << 16) | ((b3 as bv32) << 24)
  }

  function Word(data: seq<byte>, index: int): bv32
    requires InBounds4(|data|, index)
  {
    LoadLE(data[index], data[index + 1], data[index + 2], data[index + 3])
  }

  /**
   * BitConverter.ToUInt32(data, index): the little-endian word at `index`, or
   * None where .NET throws because the four bytes do not fit in the array.
   */
  function ToUInt32(data: seq<byte>, index: int): (r: Option<bv32>)
    ensures r.Some? <==> InBounds4(|data|, index)
    ensures r.Some? ==> r.value == LoadLE(data[index], data[index + 1], data[index + 2], data[index + 3])
  {
    if InBounds4(|data|, index) then Some(Word(data, index)) else None
  }

  /** BitConverter.ToUInt32(data, index) on a live array. */
  method ReadUInt32(data: array<byte>, index: int) returns (r: Option<bv32>)
    ensures r == ToUInt32(data[..], index)
  {
    if !InBounds4(data.Length, index) {
      return None;
    }
    r := Some(LoadLE(data[index], data[index + 1], data[index + 2], data[index + 3]));
  }

  /** BitConverter.GetBytes(v) for a `uint`: its four bytes, least significant first. */
  function GetBytes(v: bv32): (bs: seq<byte>)
    ensures |bs| == 4
    ensures LoadLE(bs[0], bs[1], bs[2], bs[3]) == v
  {
    [(v & 0xFF) as byte, ((v >> 8) & 0xFF) as byte, ((v >> 16) & 0xFF) as byte, (v >> 24) as byte]
  }

  /** Reading four bytes as a word and converting the word back gives the same bytes. */
  lemma GetBytesOfLoad(b0: byte, b1: byte, b2: byte, b3: byte)
    ensures GetBytes(LoadLE(b0, b1, b2, b3)) == [b0, b1, b2, b3]
  {
  }

  /** Array.Copy(src, 0, data, at, 4) on the contents of `data`. */
  function Copy4(data: Buffer, at: int, src: seq<byte>): (r: Buffer)
    requires |src| == 4 && InBounds4(|data|, at)
    ensures |r| == |data|
    ensures forall i :: 0 <= i < |data| ==> r[i] == if at <= i < at + 4 then src[i - at] else data[i]
  {
    data[at := src[0]][at + 1 := src[1]][at + 2 := src[2]][at + 3 := src[3]]
  }
}
