/**
 * What the Murmur3 model promises: the scramble is the textbook rotate, which
 * bytes a hash depends on, when it is defined, where the tail word is read,
 * and how UpdateMurmur32 and VerifyMurmur32 fit together.
 */
module Murmur3Properties {
  import opened Wrappers
  import opened Bytes
  import opened Murmur3

  // ---------------------------------------------------------------------------
  // The mixing steps are the textbook MurmurHash3 steps

  /**
   * `(k * 0x16A88000) | ((k * 0xCC9E2D51) >> 17)` is `rotl(k * 0xCC9E2D51, 15)`,
   * because 0x16A88000 is 0xCC9E2D51 << 15 modulo 2^32: the scramble is the
   * standard one.
   */
  lemma ScrambleIsRotate(k: bv32)
    ensures Scramble(k) == (k * 0xCC9E2D51).RotateLeft(15) * 0x1B873593
  {
    assert k * 0x16A88000 == (k * 0xCC9E2D51) << 15;
  }

  /** `(x >> 19) | (x << 13)` is `rotl(x, 13)`. */
  lemma RoundIsRotate(h: bv32, k: bv32)
    ensures Round(h, k) == MixIn(h, k).RotateLeft(13) * 5 + 0xE6546B64
  {
  }

  // ---------------------------------------------------------------------------
  // Which bytes the main pass reads

  lemma {:induction false} WordsAt(data: seq<byte>, offset: int, n: nat, j: nat)
    requires MainReadsOk(|data|, offset, n) && j < n
    ensures InBounds4(|data|, offset + 4 * j)
    ensures Words(data, offset, n)[j] == Word(data, offset + 4 * j)
    decreases n
  {
    if j < n - 1 {
      WordsAt(data, offset, n - 1, j);
    }
  }

  /** Two buffers that agree on the `n` words from `offset` give the same words. */
  lemma WordsFrame(d1: seq<byte>, d2: seq<byte>, offset: int, n: nat)
    requires MainReadsOk(|d1|, offset, n) && MainReadsOk(|d2|, offset, n)
    requires forall i :: offset <= i < offset + 4 * n ==> 0 <= i < |d1| && 0 <= i < |d2| && d1[i] == d2[i]
    ensures Words(d1, offset, n) == Words(d2, offset, n)
  {
    forall j | 0 <= j < n
      ensures Words(d1, offset, n)[j] == Words(d2, offset, n)[j]
    {
      WordsAt(d1, offset, n, j);
      WordsAt(d2, offset, n, j);
      assert d1[offset + 4 * j + 3] == d2[offset + 4 * j + 3];
    }
  }

  // ---------------------------------------------------------------------------
  // Where the tail word is read, and what is kept of it

  /** The little-endian value of up to four bytes; missing high bytes read as zero. */
  function PartialLE(bs: seq<byte>): bv32
    requires |bs| <= 4
  {
    LoadLE(if |bs| > 0 then bs[0] else 0, if |bs| > 1 then bs[1] else 0,
           if |bs| > 2 then bs[2] else 0, if |bs| > 3 then bs[3] else 0)
  }

  /**
   * The tail is read at `offset + 2 * (size - size % 4)` (cast to int): the
   * offset was already advanced past the whole words, and `size - size % 4`
   * is added again.
   */
  lemma TailIndexDoubled(offset: int32, size: uint32)
    ensures TailIndex(offset, size) == WrapInt32(offset + 2 * (size - size % 4))
    ensures -0x8000_0000 <= offset + 2 * (size - size % 4) < 0x8000_0000 ==>
      TailIndex(offset, size) == offset + 2 * (size - size % 4)
  {
  }

  lemma ShiftedLoad(b0: byte, b1: byte, b2: byte, b3: byte)
    ensures LoadLE(b0, b1, b2, b3) >> 8 == LoadLE(b1, b2, b3, 0)
    ensures LoadLE(b0, b1, b2, b3) >> 16 == LoadLE(b2, b3, 0, 0)
    ensures LoadLE(b0, b1, b2, b3) >> 24 == LoadLE(b3, 0, 0, 0)
  {
  }

  /**
   * The shift loop keeps the word's high `size % 4` bytes: the tail mixes in
   * the last `size % 4` bytes of the four read at `index`.
   */
  lemma TailKeepsHighBytes(data: seq<byte>, index: int, size: uint32)
    requires InBounds4(|data|, index) && size % 4 != 0
    ensures TailWord(Word(data, index), size) == PartialLE(data[index + 4 - size % 4 .. index + 4])
  {
    var b0, b1, b2, b3 := data[index], data[index + 1], data[index + 2], data[index + 3];
    ShiftedLoad(b0, b1, b2, b3);
    var kept := data[index + 4 - size % 4 .. index + 4];
    if size % 4 == 1 {
      assert kept == [b3];
    } else if size % 4 == 2 {
      assert kept == [b2, b3];
    } else {
      assert kept == [b1, b2, b3];
    }
  }

  /**
   * For every size that is not a multiple of 4, the four bytes read for the
   * tail end past `offset + size`, the end of the range being hashed.
   */
  lemma TailReadsPastRange(offset: int32, size: uint32)
    requires size % 4 != 0
    requires -0x8000_0000 <= offset + 2 * (size - size % 4) < 0x8000_0000
    ensures TailIndex(offset, size) + 4 > offset + size
  {
  }

  // ---------------------------------------------------------------------------
  // When GetMurmur3Hash returns and when it throws

  /**
   * GetMurmur3Hash returns exactly when its reads stay inside the buffer: for a
   * multiple of 4 the range `[offset, offset + size)`, otherwise everything up
   * to the end of the tail word at `offset + 2 * (size - size % 4) + 4`.
   */
  lemma HashDefinedIff(data: Buffer, offset: int32, size: uint32, seed: bv32)
    ensures Hash(data, offset, size, seed).Some? <==>
      if size % 4 == 0 then size == 0 || (0 <= offset && offset + size <= |data|)
      else 0 <= offset && offset + 2 * (size - size % 4) + 4 <= |data|
  {
    var words := MainWords(size);
    assert 4 * words == size - size % 4;
    if size % 4 != 0 {
      var x := offset + 2 * (size - size % 4);
      if 0 <= offset && offset + (size - size % 4) <= |data| {
        assert x < 0x1_0000_0000;
        if x >= 0x8000_0000 {
          assert TailIndex(offset, size) == x - 0x1_0000_0000;
        } else {
          assert TailIndex(offset, size) == x;
        }
      }
    }
  }

  // ---------------------------------------------------------------------------
  // Which bytes the hash depends on

  /** Whether byte `i` is among the bytes GetMurmur3Hash(_, offset, size, _) reads and uses. */
  predicate HashReads(offset: int32, size: uint32, i: int)
  {
    (offset <= i < offset + 4 * MainWords(size))
    || (size % 4 != 0 && TailIndex(offset, size) + 4 - size % 4 <= i < TailIndex(offset, size) + 4)
  }

  lemma TailFrame(d1: Buffer, d2: Buffer, index: int, size: uint32)
    requires |d1| == |d2| && size % 4 != 0
    requires forall i :: index + 4 - size % 4 <= i < index + 4 && 0 <= i < |d1| ==> d1[i] == d2[i]
    ensures ToUInt32(d1, index).Some? == ToUInt32(d2, index).Some?
    ensures ToUInt32(d1, index).Some? ==> TailWord(ToUInt32(d1, index).value, size) == TailWord(ToUInt32(d2, index).value, size)
  {
    if InBounds4(|d1|, index) {
      TailKeepsHighBytes(d1, index, size);
      TailKeepsHighBytes(d2, index, size);
      assert d1[index + 4 - size % 4 .. index + 4] == d2[index + 4 - size % 4 .. index + 4];
    }
  }

  lemma AbsorbedFrame(d1: Buffer, d2: Buffer, offset: int32, size: uint32, seed: bv32)
    requires |d1| == |d2|
    requires forall i :: 0 <= i < |d1| && HashReads(offset, size, i) ==> d1[i] == d2[i]
    ensures Absorbed(d1, offset, size, seed) == Absorbed(d2, offset, size, seed)
  {
    var words := MainWords(size);
    if MainReadsOk(|d1|, offset, words) {
      WordsFrame(d1, d2, offset, words);
      if size % 4 != 0 {
        TailFrame(d1, d2, TailIndex(offset, size), size);
      }
    }
  }

  /**
   * GetMurmur3Hash reads nothing but the whole words of the range and the kept
   * bytes of the tail word: buffers of one length that agree there hash alike.
   */
  lemma HashFrame(d1: Buffer, d2: Buffer, offset: int32, size: uint32, seed: bv32)
    requires |d1| == |d2|
    requires forall i :: 0 <= i < |d1| && HashReads(offset, size, i) ==> d1[i] == d2[i]
    ensures Hash(d1, offset, size, seed) == Hash(d2, offset, size, seed)
  {
    AbsorbedFrame(d1, d2, offset, size, seed);
  }

  /**
   * For a size that is a multiple of 4 the hash is a function of the range's
   * bytes alone: hashing the range in place equals hashing a copy of it.
   */
  lemma HashOfSlice(data: Buffer, offset: int32, size: uint32, seed: bv32)
    requires size % 4 == 0 && 0 <= offset && offset + size <= |data|
    ensures Hash(data, offset, size, seed) == Hash(data[offset .. offset + size], 0, size, seed)
  {
    var slice := data[offset .. offset + size];
    var words := MainWords(size);
    forall j | 0 <= j < words
      ensures Words(data, offset, words)[j] == Words(slice, 0, words)[j]
    {
      WordsAt(data, offset, words, j);
      WordsAt(slice, 0, words, j);
    }
    assert Words(data, offset, words) == Words(slice, 0, words);
  }

  // ---------------------------------------------------------------------------
  // UpdateMurmur32 and VerifyMurmur32

  /**
   * UpdateMurmur32 succeeds exactly when the hash is defined and the hash field
   * fits; it then stores the hash little-endian at `hashOffset`, returns it,
   * and leaves every other byte as it was.
   */
  lemma UpdateStores(data: Buffer, hashOffset: int32, readOffset: int32, readSize: uint32)
    ensures Update(data, hashOffset, readOffset, readSize).Some? <==>
      Hash(data, readOffset, readSize, 0).Some? && InBounds4(|data|, hashOffset)
    ensures Update(data, hashOffset, readOffset, readSize).Some? ==>
      var p := Update(data, hashOffset, readOffset, readSize).value;
      && p.hash == Hash(data, readOffset, readSize, 0).value
      && |p.buffer| == |data|
      && ToUInt32(p.buffer, hashOffset) == Some(p.hash)
      && forall i :: 0 <= i < |data| && !(hashOffset <= i < hashOffset + 4) ==> p.buffer[i] == data[i]
  {
    var u := Update(data, hashOffset, readOffset, readSize);
    if u.Some? {
      CopiedWordReads(data, hashOffset, GetBytes(u.value.hash));
    }
  }

  /** After copying four bytes in, the word read back at that index is made of them. */
  lemma CopiedWordReads(data: Buffer, at: int, src: seq<byte>)
    requires |src| == 4 && InBounds4(|data|, at)
    ensures ToUInt32(Copy4(data, at, src), at) == Some(LoadLE(src[0], src[1], src[2], src[3]))
  {
    var r := Copy4(data, at, src);
    assert r[at] == src[0] && r[at + 1] == src[1] && r[at + 2] == src[2] && r[at + 3] == src[3];
  }

  /** Whether the hash field `[hashOffset, hashOffset + 4)` lies apart from every byte the hash reads. */
  predicate FieldApart(hashOffset: int32, readOffset: int32, readSize: uint32)
  {
    forall i :: hashOffset <= i < hashOffset + 4 ==> !HashReads(readOffset, readSize, i)
  }

  /** Writing the hash field does not change a hash that does not read it. */
  lemma UpdateKeepsHash(data: Buffer, hashOffset: int32, readOffset: int32, readSize: uint32)
    requires FieldApart(hashOffset, readOffset, readSize)
    requires Update(data, hashOffset, readOffset, readSize).Some?
    ensures Hash(Update(data, hashOffset, readOffset, readSize).value.buffer, readOffset, readSize, 0)
      == Hash(data, readOffset, readSize, 0)
  {
    var p := Update(data, hashOffset, readOffset, readSize).value;
    UpdateStores(data, hashOffset, readOffset, readSize);
    HashFrame(p.buffer, data, readOffset, readSize, 0);
  }

  /** After UpdateMurmur32, VerifyMurmur32 on the same arguments accepts the buffer. */
  lemma VerifyAfterUpdate(data: Buffer, hashOffset: int32, readOffset: int32, readSize: uint32)
    requires FieldApart(hashOffset, readOffset, readSize)
    requires Update(data, hashOffset, readOffset, readSize).Some?
    ensures Verify(Update(data, hashOffset, readOffset, readSize).value.buffer, hashOffset, readOffset, readSize) == Some(true)
  {
    UpdateStores(data, hashOffset, readOffset, readSize);
    UpdateKeepsHash(data, hashOffset, readOffset, readSize);
  }

  /** Copying four bytes over themselves changes nothing, and nothing else does. */
  lemma Copy4Unchanged(data: Buffer, at: int, src: seq<byte>)
    requires |src| == 4 && InBounds4(|data|, at)
    ensures Copy4(data, at, src) == data <==> src == data[at .. at + 4]
  {
    if Copy4(data, at, src) == data {
      forall k | 0 <= k < 4
        ensures src[k] == data[at + k]
      {
        assert Copy4(data, at, src)[at + k] == src[k];
      }
    }
  }

  /** The stored word equals `h` exactly when the field already holds `h`'s bytes. */
  lemma StoredIffBytes(data: Buffer, at: int, h: bv32)
    requires InBounds4(|data|, at)
    ensures Word(data, at) == h <==> GetBytes(h) == data[at .. at + 4]
  {
    var b0, b1, b2, b3 := data[at], data[at + 1], data[at + 2], data[at + 3];
    GetBytesOfLoad(b0, b1, b2, b3);
    assert data[at .. at + 4] == [b0, b1, b2, b3];
  }

  /**
   * VerifyMurmur32 accepts a buffer exactly when UpdateMurmur32 would leave it
   * unchanged, and the two throw on the same buffers.
   */
  lemma VerifyIffUpdateUnchanged(data: Buffer, hashOffset: int32, readOffset: int32, readSize: uint32)
    ensures Verify(data, hashOffset, readOffset, readSize).Some? <==> Update(data, hashOffset, readOffset, readSize).Some?
    ensures Verify(data, hashOffset, readOffset, readSize) == Some(true) <==>
      Update(data, hashOffset, readOffset, readSize).Some? && Update(data, hashOffset, readOffset, readSize).value.buffer == data
  {
    var u := Update(data, hashOffset, readOffset, readSize);
    if u.Some? {
      var h := u.value.hash;
      StoredIffBytes(data, hashOffset, h);
      Copy4Unchanged(data, hashOffset, GetBytes(h));
    }
  }

  /** Running UpdateMurmur32 a second time changes nothing and returns the same hash. */
  lemma UpdateIdempotent(data: Buffer, hashOffset: int32, readOffset: int32, readSize: uint32)
    requires FieldApart(hashOffset, readOffset, readSize)
    requires Update(data, hashOffset, readOffset, readSize).Some?
    ensures var p := Update(data, hashOffset, readOffset, readSize).value;
      Update(p.buffer, hashOffset, readOffset, readSize) == Some(p)
  {
    var p := Update(data, hashOffset, readOffset, readSize).value;
    VerifyAfterUpdate(data, hashOffset, readOffset, readSize);
    VerifyIffUpdateUnchanged(p.buffer, hashOffset, readOffset, readSize);
    UpdateKeepsHash(data, hashOffset, readOffset, readSize);
  }
}
