/**
 * The Murmur3-style 32-bit hash of Checksums.Murmur3 and the two operations
 * built on it: writing a fresh hash into the buffer and checking a stored one.
 * C#'s unchecked `uint` arithmetic is `bv32` arithmetic. Where the C# code
 * would throw (a read or a copy outside the array) the model returns None.
 */
module Murmur3 {
  import opened Wrappers
  import opened Bytes

  /** The per-word scramble, with the rotate by 15 written as the source writes it. */
  function Scramble(k: bv32): bv32
  {
    var k1 := (k * 0x16A88000) | ((k * 0xCC9E2D51) >> 17);
    k1 * 0x1B873593
  }

  /** `checksum ^= Murmur32_Scramble(k)`, the mix both passes start with. */
  function MixIn(h: bv32, k: bv32): bv32
  {
    h ^ Scramble(k)
  }

  /** One step of the main pass (lines 198-200): mix in word `k`, rotate left 13, then `*5 + 0xE6546B64`. */
  function Round(h: bv32, k: bv32): bv32
  {
    var x := MixIn(h, k);
    var y := (x >> 19) | (x << 13);
    y * 5 + 0xE6546B64
  }

  /** `w` shifted right by `n` whole bytes, as `n` turns of the tail's shift loop leave it. */
  function ShiftBytes(w: bv32, n: nat): bv32
  {
    if n == 0 then w
    else if n == 1 then w >> 8
    else if n == 2 then w >> 16
    else if n == 3 then w >> 24
    else 0
  }

  lemma ShiftBytesStep(w: bv32, n: nat)
    ensures ShiftBytes(w, n + 1) == ShiftBytes(w, n) >> 8
  {
    if n == 0 {
    } else if n == 1 {
    } else if n == 2 {
    } else if n == 3 {
    }
  }

  /** XOR in the byte count, then the 32-bit avalanche finaliser. */
  function Finalize(h: bv32, size: uint32): bv32
  {
    var h1 := h ^ (size as bv32);
    var h2 := h1 ^ (h1 >> 16);
    var h3 := h2 * 0x85EBCA6B;
    var h4 := h3 ^ (h3 >> 13);
    var h5 := h4 * 0xC2B2AE35;
    h5 ^ (h5 >> 16)
  }

  /** How many whole words the main pass reads (it is skipped below 4 bytes). */
  function MainWords(size: uint32): nat
  {
    if size > 3 then size / 4 else 0
  }

  /** Whether the main pass's `words` reads from `offset` all stay inside `n` bytes. */
  predicate MainReadsOk(n: int, offset: int, words: nat)
  {
    words == 0 || (0 <= offset && offset + 4 * words <= n)
  }

  /** The `n` little-endian words the main pass reads from `offset`, in order. */
  function Words(data: seq<byte>, offset: int, n: nat): (ws: seq<bv32>)
    requires MainReadsOk(|data|, offset, n)
    ensures |ws| == n
    decreases n
  {
    if n == 0 then [] else Words(data, offset, n - 1) + [Word(data, offset + 4 * (n - 1))]
  }

  /** The hash state after one Round per word of `ws`, starting from `seed`. */
  function Rounds(ws: seq<bv32>, seed: bv32): bv32
    decreases |ws|
  {
    if |ws| == 0 then seed else Round(Rounds(ws[..|ws| - 1], seed), ws[|ws| - 1])
  }

  /**
   * Where the tail word is read: `(offset + size) - remainder`, computed in
   * 64 bits and cast to `int`, with `offset` already advanced past the main pass.
   */
  function TailIndex(offset: int32, size: uint32): int32
  {
    WrapInt32(offset + 4 * MainWords(size) + size - size % 4)
  }

  /** The tail word after its shift loop: only its high `size % 4` bytes remain. */
  function TailWord(w: bv32, size: uint32): bv32
  {
    ShiftBytes(w, 4 - size % 4)
  }

  /**
   * The state GetMurmur3Hash has reached before its finaliser: every whole word
   * and then the tail mixed in. None where one of the reads throws.
   */
  function Absorbed(data: Buffer, offset: int32, size: uint32, seed: bv32): Option<bv32>
  {
    if !MainReadsOk(|data|, offset, MainWords(size)) then None
    else if size % 4 == 0 then Some(Rounds(Words(data, offset, MainWords(size)), seed))
    else match ToUInt32(data, TailIndex(offset, size))
      case None => None
      case Some(w) => Some(MixIn(Rounds(Words(data, offset, MainWords(size)), seed), TailWord(w, size)))
  }

  /** GetMurmur3Hash(data, offset, size, seed) as a value: None where a read throws. */
  function Hash(data: Buffer, offset: int32, size: uint32, seed: bv32): Option<bv32>
  {
    match Absorbed(data, offset, size, seed)
    case None => None
    case Some(h) => Some(Finalize(h, size))
  }

  /** One more word is one more Round. */
  lemma RoundsStep(ws: seq<bv32>, w: bv32, seed: bv32)
    ensures Rounds(ws + [w], seed) == Round(Rounds(ws, seed), w)
  {
    assert (ws + [w])[..|ws|] == ws;
  }

  /** The tail's shift loop (lines 209-210): `4 - size % 4` right shifts by one byte. */
  method ShiftTail(w: bv32, size: uint32) returns (val: bv32)
    requires size % 4 != 0
    ensures val == TailWord(w, size)
  {
    var n: nat := 4 - size % 4;
    val := w;
    var i := 0;
    while i < n
      invariant 0 <= i <= n
      invariant val == ShiftBytes(w, i)
    {
      ShiftBytesStep(w, i);
      val := val >> 8;
      i := i + 1;
    }
  }

  /**
   * One turn of the main pass: read word `i`, at `offset + 4 * i` where the
   * C# loop has advanced its offset to, and mix it in. None where the read throws.
   */
  method WordStep(data: array<byte>, offset: int, i: nat, checksum: bv32, seed: bv32) returns (r: Option<bv32>)
    requires MainReadsOk(data.Length, offset, i)
    requires checksum == Rounds(Words(data[..], offset, i), seed)
    ensures r.Some? <==> MainReadsOk(data.Length, offset, i + 1)
    ensures r.Some? ==> r.value == Rounds(Words(data[..], offset, i + 1), seed)
  {
    var val := ReadUInt32(data, offset + 4 * i);
    if val.None? {
      return None;
    }
    RoundsStep(Words(data[..], offset, i), val.value, seed);
    // Lines 198-200: scramble and mix in the word, rotate, multiply and add.
    r := Some(Round(checksum, val.value));
  }

  /**
   * The `for` loop of the main pass over `n` words. The offset the C# loop
   * advances by 4 per turn is returned as `off`, `offset + 4 * n`.
   */
  method WordLoop(data: array<byte>, offset: int32, n: nat, seed: bv32) returns (r: Option<bv32>, off: int)
    ensures r.Some? <==> MainReadsOk(data.Length, offset, n)
    ensures r.Some? ==> r.value == Rounds(Words(data[..], offset, n), seed)
    ensures off == offset + 4 * n
  {
    var checksum := seed;
    var i := 0;
    while i < n
      invariant i <= n
      invariant MainReadsOk(data.Length, offset, i)
      invariant checksum == Rounds(Words(data[..], offset, i), seed)
    {
      var next := WordStep(data, offset, i, checksum, seed);
      if next.None? {
        return None, offset + 4 * n;
      }
      checksum := next.value;
      i := i + 1;
    }
    r, off := Some(checksum), offset + 4 * n;
  }

  /** The main pass of GetMurmur3Hash (lines 193-203), skipped below 4 bytes. */
  method MainPass(data: array<byte>, offset: int32, size: uint32, seed: bv32) returns (r: Option<bv32>, off: int)
    ensures r.Some? <==> MainReadsOk(data.Length, offset, MainWords(size))
    ensures r.Some? ==> r.value == Rounds(Words(data[..], offset, MainWords(size)), seed)
    ensures off == offset + 4 * MainWords(size)
  {
    r, off := Some(seed), offset;
    if size > 3 {
      r, off := WordLoop(data, offset, size / 4, seed);
    }
  }

  /** Lines 192-212 of GetMurmur3Hash: the main pass, then the tail. */
  method Absorb(data: array<byte>, offset: int32, size: uint32, seed: bv32) returns (r: Option<bv32>)
    requires data.Length <= MaxArrayLength
    ensures r == Absorbed(data[..], offset, size, seed)
  {
    var main, off := MainPass(data, offset, size, seed);
    if main.None? {
      return None;
    }
    var checksum := main.value;
    var remainder := size % 4;
    if remainder != 0 {
      var index := WrapInt32((off + size) - remainder);
      assert index == TailIndex(offset, size);
      var val := ReadUInt32(data, index);
      if val.None? {
        return None;
      }
      var shifted := ShiftTail(val.value, size);
      checksum := MixIn(checksum, shifted);
    }
    r := Some(checksum);
  }

  method GetMurmur3Hash(data: array<byte>, offset: int32, size: uint32, seed: bv32 := 0) returns (r: Option<bv32>)
    requires data.Length <= MaxArrayLength
    ensures r == Hash(data[..], offset, size, seed)
  {
    var checksum := Absorb(data, offset, size, seed);
    if checksum.None? {
      return None;
    }
    // Lines 214-219: XOR in the size, then the avalanche finaliser.
    r := Some(Finalize(checksum.value, size));
  }

  /** A buffer after a successful UpdateMurmur32, with the hash the call returned. */
  datatype Patched = Patched(buffer: Buffer, hash: bv32)

  /**
   * UpdateMurmur32 as a value: hash the read range, then copy the hash's four
   * little-endian bytes to `hashOffset`. None where the hash throws, or where
   * Array.Copy throws because the four bytes do not fit (nothing is written then).
   */
  function Update(data: Buffer, hashOffset: int32, readOffset: int32, readSize: uint32): Option<Patched>
  {
    match Hash(data, readOffset, readSize, 0)
    case None => None
    case Some(h) =>
      if InBounds4(|data|, hashOffset) then Some(Patched(Copy4(data, hashOffset, GetBytes(h)), h)) else None
  }

  method UpdateMurmur32(data: array<byte>, hashOffset: int32, readOffset: int32, readSize: uint32) returns (r: Option<bv32>)
    requires data.Length <= MaxArrayLength
    modifies data
    ensures var u := Update(old(data[..]), hashOffset, readOffset, readSize);
      && (r.Some? <==> u.Some?)
      && (u.Some? ==> r.value == u.value.hash && data[..] == u.value.buffer)
      && (u.None? ==> data[..] == old(data[..]))
  {
    var newHash := GetMurmur3Hash(data, readOffset, readSize);
    if newHash.None? || !InBounds4(data.Length, hashOffset) {
      return None;
    }
    var bytes := GetBytes(newHash.value);
    // Array.Copy(bytes, 0, data, hashOffset, 4)
    data[hashOffset] := bytes[0];
    data[hashOffset + 1] := bytes[1];
    data[hashOffset + 2] := bytes[2];
    data[hashOffset + 3] := bytes[3];
    assert data[..] == Copy4(old(data[..]), hashOffset, bytes);
    r := newHash;
  }

  /**
   * VerifyMurmur32 as a value: whether the stored word equals a fresh hash.
   * The stored word is read first; None where either read throws.
   */
  function Verify(data: Buffer, hashOffset: int32, readOffset: int32, readSize: uint32): Option<bool>
  {
    match ToUInt32(data, hashOffset)
    case None => None
    case Some(stored) =>
      match Hash(data, readOffset, readSize, 0)
      case None => None
      case Some(h) => Some(stored == h)
  }

  method VerifyMurmur32(data: array<byte>, hashOffset: int32, readOffset: int32, readSize: uint32) returns (r: Option<bool>)
    requires data.Length <= MaxArrayLength
    ensures r == Verify(data[..], hashOffset, readOffset, readSize)
  {
    var stored := ReadUInt32(data, hashOffset);
    if stored.None? {
      return None;
    }
    var h := GetMurmur3Hash(data, readOffset, readSize);
    r := if h.None? then None else Some(stored.value == h.value);
  }
}
