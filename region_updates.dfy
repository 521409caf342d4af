/**
 * Refreshing every hash of a save file: UpdateMurmur32 applied to each
 * region of a HashSet in order, and why every region then verifies when the
 * regions are laid out as the registry lays them out.
 */
module RegionUpdates {
  import opened Wrappers
  import opened Bytes
  import opened Murmur3
  import opened Murmur3Properties
  import opened HashRegistry
  import opened VersionHashInfo

  /** The end of the range a region's hash covers. */
  function End(r: HashRegion): int
  {
    r.beginOffset + r.size
  }

  /** A region as the registry writes them: the hash word right before a whole number of words. */
  predicate WellFormed(r: HashRegion)
  {
    0 <= r.hashOffset && r.beginOffset == r.hashOffset + 4 && r.size % 4 == 0
  }

  /**
   * Well-formed regions in increasing order that do not overlap, all inside
   * `n` bytes. Consecutive regions may leave bytes between them that no hash
   * covers.
   */
  predicate Ordered(rs: seq<HashRegion>, n: int)
  {
    && (forall j :: 0 <= j < |rs| ==> WellFormed(rs[j]) && End(rs[j]) <= n)
    && (forall j :: 0 <= j < |rs| - 1 ==> End(rs[j]) <= rs[j + 1].hashOffset)
  }

  /** The buffer after UpdateMurmur32 on region `r`; None where it throws. */
  function UpdateRegionBuffer(data: Buffer, r: HashRegion): Option<Buffer>
  {
    match Update(data, r.hashOffset, r.beginOffset, r.size)
    case None => None
    case Some(p) => Some(p.buffer)
  }

  /** The buffer after UpdateMurmur32 on each region of `rs`, first to last; None once one throws. */
  function UpdateAll(data: Buffer, rs: seq<HashRegion>): Option<Buffer>
    decreases |rs|
  {
    if |rs| == 0 then Some(data)
    else
      match UpdateAll(data, rs[..|rs| - 1])
      case None => None
      case Some(d) => UpdateRegionBuffer(d, rs[|rs| - 1])
  }

  /** Whether the stored hash of region `r` in `data` matches a fresh one. */
  predicate Verifies(data: Buffer, r: HashRegion)
  {
    Verify(data, r.hashOffset, r.beginOffset, r.size) == Some(true)
  }

  /** In an ordered layout every earlier region ends before a later one's hash word. */
  lemma {:induction false} OrderedBefore(rs: seq<HashRegion>, n: int, i: nat, j: nat)
    requires Ordered(rs, n) && i < j < |rs|
    ensures End(rs[i]) <= rs[j].hashOffset
    decreases j - i
  {
    if i + 1 < j {
      OrderedBefore(rs, n, i + 1, j);
      assert WellFormed(rs[i + 1]);
    }
  }

  /** Every prefix of an ordered layout is ordered. */
  lemma OrderedPrefix(rs: seq<HashRegion>, n: int, m: nat)
    requires Ordered(rs, n) && m <= |rs|
    ensures Ordered(rs[..m], n)
  {
    assert forall j :: 0 <= j < m ==> rs[..m][j] == rs[j];
  }

  /** Whether `d1` and `d2` agree on every byte the hash and the stored word of `r` are read from. */
  predicate AgreeOn(d1: Buffer, d2: Buffer, r: HashRegion)
    requires |d1| == |d2|
  {
    forall i :: 0 <= i < |d1| && r.hashOffset <= i < End(r) ==> d1[i] == d2[i]
  }

  /** The stored hash word of `r` is read from `[hashOffset, hashOffset + 4)` only. */
  lemma StoredWordFrame(d1: Buffer, d2: Buffer, r: HashRegion)
    requires |d1| == |d2| && WellFormed(r) && AgreeOn(d1, d2, r)
    ensures ToUInt32(d1, r.hashOffset) == ToUInt32(d2, r.hashOffset)
  {
    var h := r.hashOffset;
    if InBounds4(|d1|, h) {
      assert d1[h] == d2[h] && d1[h + 1] == d2[h + 1] && d1[h + 2] == d2[h + 2] && d1[h + 3] == d2[h + 3];
    }
  }

  /** The fresh hash of a well-formed region reads `[beginOffset, End)` only. */
  lemma RegionHashFrame(d1: Buffer, d2: Buffer, r: HashRegion)
    requires |d1| == |d2| && WellFormed(r) && AgreeOn(d1, d2, r)
    ensures Hash(d1, r.beginOffset, r.size, 0) == Hash(d2, r.beginOffset, r.size, 0)
  {
    assert 4 * MainWords(r.size) == r.size;
    forall i | 0 <= i < |d1| && HashReads(r.beginOffset, r.size, i)
      ensures d1[i] == d2[i]
    {
      assert r.hashOffset <= i < End(r);
    }
    HashFrame(d1, d2, r.beginOffset, r.size, 0);
  }

  /** Verifying a well-formed region reads nothing outside `[hashOffset, End)`. */
  lemma VerifyFrame(d1: Buffer, d2: Buffer, r: HashRegion)
    requires |d1| == |d2| && WellFormed(r) && AgreeOn(d1, d2, r)
    ensures Verify(d1, r.hashOffset, r.beginOffset, r.size) == Verify(d2, r.hashOffset, r.beginOffset, r.size)
  {
    StoredWordFrame(d1, d2, r);
    RegionHashFrame(d1, d2, r);
  }

  /** A well-formed region that fits can be updated, and verifies afterwards. */
  lemma UpdateRegion(data: Buffer, r: HashRegion)
    requires WellFormed(r) && End(r) <= |data|
    ensures Update(data, r.hashOffset, r.beginOffset, r.size).Some?
    ensures Verifies(Update(data, r.hashOffset, r.beginOffset, r.size).value.buffer, r)
  {
    HashDefinedIff(data, r.beginOffset, r.size, 0);
    UpdateStores(data, r.hashOffset, r.beginOffset, r.size);
    assert 4 * MainWords(r.size) == r.size;
    VerifyAfterUpdate(data, r.hashOffset, r.beginOffset, r.size);
  }

  /** Whether byte `i` lies outside the hash field of every region of `rs`. */
  predicate OutsideFields(rs: seq<HashRegion>, i: int)
  {
    forall j :: 0 <= j < |rs| ==> !(rs[j].hashOffset <= i < rs[j].hashOffset + 4)
  }

  /** A byte outside every hash field of `rs` is outside those of any prefix. */
  lemma OutsidePrefix(rs: seq<HashRegion>, m: nat, i: int)
    requires m <= |rs| && OutsideFields(rs, i)
    ensures OutsideFields(rs[..m], i)
  {
    forall j | 0 <= j < m
      ensures !(rs[..m][j].hashOffset <= i < rs[..m][j].hashOffset + 4)
    {
      assert rs[..m][j] == rs[j];
    }
  }

  /** Updating one region, where it succeeds, changes only its hash field. */
  lemma UpdateRegionFrame(data: Buffer, r: HashRegion)
    ensures UpdateRegionBuffer(data, r).Some? ==> |UpdateRegionBuffer(data, r).value| == |data|
    ensures UpdateRegionBuffer(data, r).Some? ==>
      forall i :: 0 <= i < |data| && !(r.hashOffset <= i < r.hashOffset + 4) ==> UpdateRegionBuffer(data, r).value[i] == data[i]
  {
    UpdateStores(data, r.hashOffset, r.beginOffset, r.size);
  }

  /**
   * Updating the regions in turn, where it succeeds, keeps the buffer's length
   * and changes no byte outside the regions' hash fields.
   */
  lemma {:induction false} UpdateAllFrame(data: Buffer, rs: seq<HashRegion>)
    ensures UpdateAll(data, rs).Some? ==> |UpdateAll(data, rs).value| == |data|
    ensures UpdateAll(data, rs).Some? ==>
      forall i :: 0 <= i < |data| && OutsideFields(rs, i) ==> UpdateAll(data, rs).value[i] == data[i]
    decreases |rs|
  {
    if |rs| > 0 && UpdateAll(data, rs).Some? {
      var m := |rs| - 1;
      UpdateAllFrame(data, rs[..m]);
      UpdateRegionFrame(UpdateAll(data, rs[..m]).value, rs[m]);
      forall i | 0 <= i < |data| && OutsideFields(rs, i)
        ensures UpdateAll(data, rs).value[i] == data[i]
      {
        OutsidePrefix(rs, m, i);
      }
    }
  }

  /**
   * Updating the regions of an ordered layout in turn succeeds, keeps the
   * buffer's length, and leaves every region verifying: a later update never
   * touches what an earlier region's check reads.
   */
  lemma {:induction false} UpdateAllVerifies(data: Buffer, rs: seq<HashRegion>)
    requires Ordered(rs, |data|)
    ensures UpdateAll(data, rs).Some?
    ensures |UpdateAll(data, rs).value| == |data|
    ensures forall j :: 0 <= j < |rs| ==> Verifies(UpdateAll(data, rs).value, rs[j])
    decreases |rs|
  {
    if |rs| > 0 {
      var m := |rs| - 1;
      var r := rs[m];
      OrderedPrefix(rs, |data|, m);
      UpdateAllVerifies(data, rs[..m]);
      var d := UpdateAll(data, rs[..m]).value;
      UpdateRegion(d, r);
      UpdateStores(d, r.hashOffset, r.beginOffset, r.size);
      var d2 := Update(d, r.hashOffset, r.beginOffset, r.size).value.buffer;
      forall j | 0 <= j < |rs|
        ensures Verifies(d2, rs[j])
      {
        if j < m {
          assert rs[..m][j] == rs[j];
          OrderedBefore(rs, |data|, j, m);
          VerifyFrame(d, d2, rs[j]);
        }
      }
    }
  }

  /** Updating a region that already verifies leaves the buffer as it is. */
  lemma UpdateOfVerified(data: Buffer, r: HashRegion)
    requires Verifies(data, r)
    ensures UpdateRegionBuffer(data, r) == Some(data)
  {
    VerifyIffUpdateUnchanged(data, r.hashOffset, r.beginOffset, r.size);
  }

  /** When every region already verifies, updating them all changes nothing. */
  lemma {:induction false} UpdateAllOfVerified(data: Buffer, rs: seq<HashRegion>)
    requires forall j :: 0 <= j < |rs| ==> Verifies(data, rs[j])
    ensures UpdateAll(data, rs) == Some(data)
    decreases |rs|
  {
    if |rs| > 0 {
      var init := rs[..|rs| - 1];
      forall j | 0 <= j < |init|
        ensures Verifies(data, init[j])
      {
        assert init[j] == rs[j];
      }
      UpdateAllOfVerified(data, init);
      UpdateOfVerified(data, rs[|rs| - 1]);
    }
  }

  /** Refreshing all the hashes of an ordered layout twice is the same as once. */
  lemma UpdateAllIdempotent(data: Buffer, rs: seq<HashRegion>)
    requires Ordered(rs, |data|)
    ensures UpdateAll(data, rs).Some?
    ensures UpdateAll(UpdateAll(data, rs).value, rs) == UpdateAll(data, rs)
  {
    UpdateAllVerifies(data, rs);
    UpdateAllOfVerified(UpdateAll(data, rs).value, rs);
  }

  /** The 19 regions of main.dat in revision 1.0.0 are well-formed and in order. */
  lemma MainRegions100Ordered()
    ensures Ordered(Main100Regions, MainSaveSize)
  {
    forall j | 0 <= j < |Main100Regions|
      ensures WellFormed(Main100Regions[j]) && End(Main100Regions[j]) <= MainSaveSize
      ensures j < |Main100Regions| - 1 ==> End(Main100Regions[j]) <= Main100Regions[j + 1].hashOffset
    {
      assert j in {0, 1, 2, 3, 4, 5, 6, 7, 8, 9, 10, 11, 12, 13, 14, 15, 16, 17, 18};
    }
  }

  /** The 19 regions of main.dat in revision 1.1.0 are well-formed and in order. */
  lemma MainRegions110Ordered()
    ensures Ordered(Main110Regions, Rev110MainSaveSize)
  {
    forall j | 0 <= j < |Main110Regions|
      ensures WellFormed(Main110Regions[j]) && End(Main110Regions[j]) <= Rev110MainSaveSize
      ensures j < |Main110Regions| - 1 ==> End(Main110Regions[j]) <= Main110Regions[j + 1].hashOffset
    {
      assert j in {0, 1, 2, 3, 4, 5, 6, 7, 8, 9, 10, 11, 12, 13, 14, 15, 16, 17, 18};
    }
  }

  /**
   * Every file kind of both revisions has well-formed regions in increasing
   * order, the last of which ends exactly at the end of the file.
   */
  lemma RegistryOrdered(i: nat)
    requires i < |AllSets|
    ensures Ordered(AllSets[i].hashRegions, AllSets[i].fileSize)
    ensures |AllSets[i].hashRegions| > 0
    ensures End(AllSets[i].hashRegions[|AllSets[i].hashRegions| - 1]) == AllSets[i].fileSize
  {
    assert i in {0, 1, 2, 3, 4, 5, 6, 7, 8, 9};
    if i == 0 {
      MainRegions100Ordered();
    } else if i == 5 {
      MainRegions110Ordered();
    }
  }

  /**
   * For every known file kind and every buffer of that kind's size, updating
   * its regions in order succeeds and leaves each of them verifying.
   */
  lemma RegistryUpdateVerifies(i: nat, data: Buffer)
    requires i < |AllSets| && |data| == AllSets[i].fileSize
    ensures UpdateAll(data, AllSets[i].hashRegions).Some?
    ensures forall j :: 0 <= j < |AllSets[i].hashRegions| ==>
      Verifies(UpdateAll(data, AllSets[i].hashRegions).value, AllSets[i].hashRegions[j])
  {
    RegistryOrdered(i);
    UpdateAllVerifies(data, AllSets[i].hashRegions);
  }
}
