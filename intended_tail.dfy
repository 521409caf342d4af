/**
 * The tail of GetMurmur3Hash as evidently intended: the last `size % 4` bytes
 * of the range, taken from the word that ends where the range ends. The code
 * reads the tail word at `offset + 2 * (size - size % 4)` instead, because
 * `offset` was already advanced past the whole words. For sizes that are a
 * multiple of 4, which is every size in the registry, the two agree.
 */
module IntendedTail {
  import opened Wrappers
  import opened Bytes
  import opened Murmur3
  import opened Murmur3Properties

  /** Where the intended tail word is read: the word ending at `offset + size`. */
  function IntendedTailIndex(offset: int32, size: uint32): int
  {
    offset + size - 4
  }

  function IntendedAbsorbed(data: Buffer, offset: int32, size: uint32, seed: bv32): Option<bv32>
  {
    if !MainReadsOk(|data|, offset, MainWords(size)) then None
    else if size % 4 == 0 then Some(Rounds(Words(data, offset, MainWords(size)), seed))
    else match ToUInt32(data, IntendedTailIndex(offset, size))
      case None => None
      case Some(w) => Some(MixIn(Rounds(Words(data, offset, MainWords(size)), seed), TailWord(w, size)))
  }

  /** GetMurmur3Hash with the tail read where it was meant to be read. */
  function IntendedHash(data: Buffer, offset: int32, size: uint32, seed: bv32): Option<bv32>
  {
    match IntendedAbsorbed(data, offset, size, seed)
    case None => None
    case Some(h) => Some(Finalize(h, size))
  }

  /** For a multiple of 4 there is no tail, and the code as written computes the intended hash. */
  lemma AlignedAgrees(data: Buffer, offset: int32, size: uint32, seed: bv32)
    requires size % 4 == 0
    ensures IntendedHash(data, offset, size, seed) == Hash(data, offset, size, seed)
  {
  }

  /**
   * The intended hash is defined exactly when the range lies inside the buffer
   * and, for a range with a tail, the word ending at its end starts inside it too.
   */
  lemma IntendedDefinedIff(data: Buffer, offset: int32, size: uint32, seed: bv32)
    ensures IntendedHash(data, offset, size, seed).Some? <==>
      size == 0 || (0 <= offset && offset + size <= |data| && (size % 4 == 0 || offset + size >= 4))
  {
    assert 4 * MainWords(size) == size - size % 4;
  }

  /** The intended tail mixes in exactly the range's last `size % 4` bytes. */
  lemma IntendedTailIsRangeEnd(data: Buffer, offset: int32, size: uint32)
    requires size % 4 != 0 && InBounds4(|data|, IntendedTailIndex(offset, size))
    ensures TailWord(Word(data, IntendedTailIndex(offset, size)), size)
      == PartialLE(data[offset + size - size % 4 .. offset + size])
  {
    TailKeepsHighBytes(data, IntendedTailIndex(offset, size), size);
  }

  /**
   * The intended hash reads nothing outside `[offset, offset + size)`:
   * buffers of one length that agree on the range hash alike.
   */
  lemma IntendedReadsRangeOnly(d1: Buffer, d2: Buffer, offset: int32, size: uint32, seed: bv32)
    requires |d1| == |d2|
    requires forall i :: 0 <= i < |d1| && offset <= i < offset + size ==> d1[i] == d2[i]
    ensures IntendedHash(d1, offset, size, seed) == IntendedHash(d2, offset, size, seed)
  {
    var words := MainWords(size);
    assert 4 * words == size - size % 4;
    if MainReadsOk(|d1|, offset, words) {
      WordsFrame(d1, d2, offset, words);
      var index := IntendedTailIndex(offset, size);
      if size % 4 != 0 && InBounds4(|d1|, index) {
        IntendedTailIsRangeEnd(d1, offset, size);
        IntendedTailIsRangeEnd(d2, offset, size);
        assert d1[offset + size - size % 4 .. offset + size] == d2[offset + size - size % 4 .. offset + size];
      }
    }
  }

  /**
   * The code as written, on a 5-byte range at offset 0: the range's last byte
   * (index 4) never reaches the hash, and a buffer that holds the range but
   * fewer than 12 bytes makes it throw. The intended hash is defined there.
   */
  lemma WrittenTailMissesRange(data: Buffer, b: byte, seed: bv32)
    requires 5 <= |data|
    ensures |data| < 12 ==> Hash(data, 0, 5, seed).None?
    ensures Hash(data, 0, 5, seed) == Hash(data[4 := b], 0, 5, seed)
    ensures IntendedHash(data, 0, 5, seed).Some?
  {
    assert TailIndex(0, 5) == 8;
    HashFrame(data, data[4 := b], 0, 5, seed);
    IntendedDefinedIff(data, 0, 5, seed);
  }
}
