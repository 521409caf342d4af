/**
 * The records that describe where a save file keeps its checksums, and the
 * per-revision lookup table from a file's size to its record.
 */
module HashRegistry {
  import opened Wrappers
  import opened Bytes

  /** One checksummed range: the hash word at `hashOffset` covers `size` bytes from `beginOffset`. */
  datatype HashRegion = HashRegion(hashOffset: int32, beginOffset: int32, size: uint32)

  /** A save file kind: its name, its exact size in bytes and its regions, in order. */
  datatype HashSet = HashSet(fileName: string, fileSize: uint32, hashRegions: seq<HashRegion>)

  /**
   * What a dictionary filled from `sets` in order, keyed by FileSize, holds
   * for `k`: the last set of that size, or None (C# `null`).
   */
  function LastWithSize(sets: seq<HashSet>, k: uint32): Option<HashSet>
    decreases |sets|
  {
    if |sets| == 0 then None
    else if sets[|sets| - 1].fileSize == k then Some(sets[|sets| - 1])
    else LastWithSize(sets[..|sets| - 1], k)
  }

  /** LastWithSize finds nothing exactly when no set has size `k`. */
  lemma {:induction false} LastWithSizeNone(sets: seq<HashSet>, k: uint32)
    ensures LastWithSize(sets, k).None? <==> forall i :: 0 <= i < |sets| ==> sets[i].fileSize != k
    decreases |sets|
  {
    if |sets| > 0 && sets[|sets| - 1].fileSize != k {
      var init := sets[..|sets| - 1];
      LastWithSizeNone(init, k);
      assert forall i :: 0 <= i < |init| ==> init[i] == sets[i];
    }
  }

  /**
   * The last set of size `k` wins: what LastWithSize finds is some `sets[i]`
   * of size `k` that no later set shares its size with.
   */
  lemma {:induction false} LastWithSizeWins(sets: seq<HashSet>, k: uint32) returns (i: nat)
    requires LastWithSize(sets, k).Some?
    ensures i < |sets| && sets[i] == LastWithSize(sets, k).value && sets[i].fileSize == k
    ensures forall j :: i < j < |sets| ==> sets[j].fileSize != k
    decreases |sets|
  {
    var last := |sets| - 1;
    if sets[last].fileSize == k {
      i := last;
    } else {
      var init := sets[..last];
      i := LastWithSizeWins(init, k);
      assert sets[i] == init[i];
      forall j | i < j < |sets|
        ensures sets[j].fileSize != k
      {
        if j < last {
          assert sets[j] == init[j];
        }
      }
    }
  }

  /** When the sizes are distinct, each set is found under its own size. */
  lemma DistinctSizesFound(sets: seq<HashSet>, i: nat)
    requires i < |sets|
    requires forall a, b :: 0 <= a < b < |sets| ==> sets[a].fileSize != sets[b].fileSize
    ensures LastWithSize(sets, sets[i].fileSize) == Some(sets[i])
  {
    LastWithSizeNone(sets, sets[i].fileSize);
    var w := LastWithSizeWins(sets, sets[i].fileSize);
    assert w == i;
  }

  /**
   * One revision of the game's save format: its id, the magic its files
   * start with, and the sets of that revision keyed by file size.
   */
  class HashInfo {
    const revisionId: uint32
    const revisionMagic: seq<uint32>
    var hashDict: map<uint32, HashSet>

    /** The indexer's getter: the set stored under `index`, or None (C# `null`). */
    function Get(index: uint32): Option<HashSet>
      reads this
    {
      if index in hashDict then Some(hashDict[index]) else None
    }

    /**
     * The indexer's setter: replaces the set under an existing key and adds a
     * new key otherwise. Afterwards `index` gives `value` and every other key
     * gives what it gave before.
     */
    method Set(index: uint32, value: HashSet)
      modifies this
      ensures hashDict == old(hashDict)[index := value]
      ensures Get(index) == Some(value)
      ensures forall k :: k != index ==> Get(k) == old(Get(k))
    {
      // Overwriting an existing key and Add of a new one are the same map update.
      hashDict := hashDict[index := value];
    }

    /**
     * Stores every set under its FileSize, in order, so that of two sets of
     * one size the later one is kept.
     */
    constructor(revisionId: uint32, magic: seq<uint32>, hashSets: seq<HashSet>)
      ensures this.revisionId == revisionId && revisionMagic == magic
      ensures forall k :: Get(k) == LastWithSize(hashSets, k)
    {
      this.revisionId := revisionId;
      revisionMagic := magic;
      hashDict := map[];
      new;
      for i := 0 to |hashSets|
        invariant forall k :: Get(k) == LastWithSize(hashSets[..i], k)
      {
        Set(hashSets[i].fileSize, hashSets[i]);
        assert hashSets[..i + 1][..i] == hashSets[..i];
      }
      assert hashSets[..|hashSets|] == hashSets;
    }
  }
}
