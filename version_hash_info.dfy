/**
 * The two known revisions of the save format (1.0.0 and 1.1.0): for each,
 * the magic its files start with and, per file kind, the file's size and the
 * regions whose hashes it keeps.
 */
module VersionHashInfo {
  import opened Wrappers
  import opened Bytes
  import opened HashRegistry

  // Revision 1.0.0
  const Revision100Id: uint32 := 0
  const MainSaveSize: uint32 := 0xAC0938
  const PersonalSaveSize: uint32 := 0x6BC50
  const PostboxSaveSize: uint32 := 0xB44580
  const PhotoStudioIslandSize: uint32 := 0x263B4
  const ProfileSize: uint32 := 0x69508

  // Revision 1.1.0
  const Revision110Id: uint32 := 1
  const Rev110MainSaveSize: uint32 := 0xAC2AA0
  const Rev110PersonalSaveSize: uint32 := 0x6BED0
  const Rev110PostboxSaveSize: uint32 := 0xB44590
  const Rev110PhotoStudioIslandSize: uint32 := 0x263C0
  const Rev110ProfileSize: uint32 := 0x69560

  const Revision100Magic: seq<uint32> := [0x67, 0x6F, 0x02, 0x02]
  const Revision110Magic: seq<uint32> := [0x6D, 0x78, 0x02, 0x00010002]

  /** The regions of main.dat in revision 1.0.0. */
  const Main100Regions: seq<HashRegion> := [
    HashRegion(0x000108, 0x00010C, 0x1D6D4C),
    HashRegion(0x1D6E58, 0x1D6E5C, 0x323384),
    HashRegion(0x4FA2E8, 0x4FA2EC, 0x035AC4),
    HashRegion(0x52FDB0, 0x52FDB4, 0x03607C),
    HashRegion(0x565F38, 0x565F3C, 0x035AC4),
    HashRegion(0x59BA00, 0x59BA04, 0x03607C),
    HashRegion(0x5D1B88, 0x5D1B8C, 0x035AC4),
    HashRegion(0x607650, 0x607654, 0x03607C),
    HashRegion(0x63D7D8, 0x63D7DC, 0x035AC4),
    HashRegion(0x6732A0, 0x6732A4, 0x03607C),
    HashRegion(0x6A9428, 0x6A942C, 0x035AC4),
    HashRegion(0x6DEEF0, 0x6DEEF4, 0x03607C),
    HashRegion(0x715078, 0x71507C, 0x035AC4),
    HashRegion(0x74AB40, 0x74AB44, 0x03607C),
    HashRegion(0x780CC8, 0x780CCC, 0x035AC4),
    HashRegion(0x7B6790, 0x7B6794, 0x03607C),
    HashRegion(0x7EC918, 0x7EC91C, 0x035AC4),
    HashRegion(0x8223E0, 0x8223E4, 0x03607C),
    HashRegion(0x858460, 0x858464, 0x2684D4)
  ]

  const Revision100Sets: seq<HashSet> := [
    HashSet("main.dat", MainSaveSize, Main100Regions),
    HashSet("personal.dat", PersonalSaveSize, [
      HashRegion(0x00108, 0x0010C, 0x35AC4),
      HashRegion(0x35BD0, 0x35BD4, 0x3607C)]),
    HashSet("postbox.dat", PostboxSaveSize, [
      HashRegion(0x000100, 0x00104, 0xB4447C)]),
    HashSet("photo_studio_island.dat", PhotoStudioIslandSize, [
      HashRegion(0x000100, 0x00104, 0x262B0)]),
    HashSet("profile.dat", ProfileSize, [
      HashRegion(0x000100, 0x00104, 0x69404)])
  ]

  /** The regions of main.dat in revision 1.1.0. */
  const Main110Regions: seq<HashRegion> := [
    HashRegion(0x000110, 0x000114, 0x1D6D5C),
    HashRegion(0x1D6E70, 0x1D6E74, 0x323C0C),
    HashRegion(0x4FAB90, 0x4FAB94, 0x035AFC),
    HashRegion(0x530690, 0x530694, 0x0362BC),
    HashRegion(0x566A60, 0x566A64, 0x035AFC),
    HashRegion(0x59C560, 0x59C564, 0x0362BC),
    HashRegion(0x5D2930, 0x5D2934, 0x035AFC),
    HashRegion(0x608430, 0x608434, 0x0362BC),
    HashRegion(0x63E800, 0x63E804, 0x035AFC),
    HashRegion(0x674300, 0x674304, 0x0362BC),
    HashRegion(0x6AA6D0, 0x6AA6D4, 0x035AFC),
    HashRegion(0x6E01D0, 0x6E01D4, 0x0362BC),
    HashRegion(0x7165A0, 0x7165A4, 0x035AFC),
    HashRegion(0x74C0A0, 0x74C0A4, 0x0362BC),
    HashRegion(0x782470, 0x782474, 0x035AFC),
    HashRegion(0x7B7F70, 0x7B7F74, 0x0362BC),
    HashRegion(0x7EE340, 0x7EE344, 0x035AFC),
    HashRegion(0x823E40, 0x823E44, 0x0362BC),
    HashRegion(0x85A100, 0x85A104, 0x26899C)
  ]

  const Revision110Sets: seq<HashSet> := [
    HashSet("main.dat", Rev110MainSaveSize, Main110Regions),
    HashSet("personal.dat", Rev110PersonalSaveSize, [
      HashRegion(0x00110, 0x00114, 0x35AFC),
      HashRegion(0x35C10, 0x35C14, 0x362BC)]),
    HashSet("postbox.dat", Rev110PostboxSaveSize, [
      HashRegion(0x000100, 0x00104, 0xB4448C)]),
    HashSet("photo_studio_island.dat", Rev110PhotoStudioIslandSize, [
      HashRegion(0x000100, 0x00104, 0x262BC)]),
    HashSet("profile.dat", Rev110ProfileSize, [
      HashRegion(0x000100, 0x00104, 0x6945C)])
  ]

  /** The sets of every known revision, 1.0.0 first. */
  const AllSets: seq<HashSet> := Revision100Sets + Revision110Sets

  /**
   * Builds VersionHashInfoList: one HashInfo per revision, in order, each
   * holding its revision's sets keyed by file size.
   */
  method BuildVersionHashInfoList() returns (list: seq<HashInfo>)
    ensures |list| == 2 && fresh(list[0]) && fresh(list[1])
    ensures list[0].revisionId == Revision100Id && list[0].revisionMagic == Revision100Magic
    ensures list[1].revisionId == Revision110Id && list[1].revisionMagic == Revision110Magic
    ensures forall k :: list[0].Get(k) == LastWithSize(Revision100Sets, k)
    ensures forall k :: list[1].Get(k) == LastWithSize(Revision110Sets, k)
  {
    var rev100 := new HashInfo(Revision100Id, Revision100Magic, Revision100Sets);
    var rev110 := new HashInfo(Revision110Id, Revision110Magic, Revision110Sets);
    list := [rev100, rev110];
  }

  /** No two known file kinds, of either revision, have the same size. */
  lemma SizesDistinct()
    ensures forall a, b :: 0 <= a < b < |AllSets| ==> AllSets[a].fileSize != AllSets[b].fileSize
  {
    var sizes := [MainSaveSize, PersonalSaveSize, PostboxSaveSize, PhotoStudioIslandSize, ProfileSize,
      Rev110MainSaveSize, Rev110PersonalSaveSize, Rev110PostboxSaveSize, Rev110PhotoStudioIslandSize, Rev110ProfileSize];
    assert forall i :: 0 <= i < |AllSets| ==> AllSets[i].fileSize == sizes[i];
  }

  /**
   * Every file kind of a revision is found under its own size: no set of the
   * table is shadowed by a later one of the same size.
   */
  lemma EveryKindFound(i: nat)
    ensures i < |Revision100Sets| ==> LastWithSize(Revision100Sets, Revision100Sets[i].fileSize) == Some(Revision100Sets[i])
    ensures i < |Revision110Sets| ==> LastWithSize(Revision110Sets, Revision110Sets[i].fileSize) == Some(Revision110Sets[i])
  {
    SizesDistinct();
    assert forall a :: 0 <= a < |Revision100Sets| ==> Revision100Sets[a] == AllSets[a];
    assert forall a :: 0 <= a < |Revision110Sets| ==> Revision110Sets[a] == AllSets[|Revision100Sets| + a];
    if i < |Revision100Sets| {
      DistinctSizesFound(Revision100Sets, i);
    }
    if i < |Revision110Sets| {
      DistinctSizesFound(Revision110Sets, i);
    }
  }

  /** The two revisions are told apart by their magic, and every file kind by its size. */
  lemma RevisionsDistinct()
    ensures Revision100Magic != Revision110Magic
    ensures forall a, b :: 0 <= a < |Revision100Sets| && 0 <= b < |Revision110Sets| ==>
      Revision100Sets[a].fileSize != Revision110Sets[b].fileSize
  {
    assert Revision100Magic[0] != Revision110Magic[0];
    SizesDistinct();
    assert forall a :: 0 <= a < |Revision100Sets| ==> Revision100Sets[a] == AllSets[a];
    assert forall b :: 0 <= b < |Revision110Sets| ==> Revision110Sets[b] == AllSets[|Revision100Sets| + b];
  }
}
