# HorizonSummer checksums in Dafny

HorizonSummer rewrites the checksums of Animal Crossing: New Horizons save files. Each save file kind (`main.dat`, `personal.dat`, …) holds a number of *regions*. A region is a 32-bit hash word at `HashOffset` that covers `Size` bytes starting at `BeginOffset`. The hash is a Murmur3-style 32-bit hash.

This project models `HorizonSummer/Checksums.cs`:

- **The machine vocabulary** (`bytes.dfy`, `wrappers.dfy`):
  - C# `int`, `uint` and `byte`.
  - A `byte[]`, whose length is at most `int.MaxValue`.
  - `BitConverter.ToUInt32` and `BitConverter.GetBytes`, on a little-endian host.
  - `Array.Copy` of four bytes.
  - `Option` stands for a `null` result and for a call that throws (`None`).
- **The hash** (`murmur3.dfy`):
  - `GetMurmur3Hash`, `UpdateMurmur32` and `VerifyMurmur32` are methods over a `byte` array, with loops where the C# has loops.
  - Each is proved equal to a function on the array's contents: `Hash`, `Update` and `Verify`.
  - C#'s unchecked `uint` arithmetic is `bv32`.
- **What the hash promises** (`murmur3_properties.dfy`):
  - The scramble is the textbook rotate.
  - Which bytes the hash reads, and exactly when it throws.
  - Where the tail word comes from.
  - How update and verify fit together.
- **The registry records** (`hash_registry.dfy`):
  - `HashRegion` (lines 7-19) is the datatype `HashRegistry.HashRegion`, and `HashSet` (lines 21-37) is the datatype `HashRegistry.HashSet`. Both are values; the enumerator of `HashSet` is its `hashRegions` sequence.
  - `HashInfo` is a class whose `Dictionary` is a `map` field. Its indexer is `Get`/`Set`, and its constructor fills the map in order.
- **The literal registry** `VersionHashInfoList` (`version_hash_info.dfy`): both revisions, their magics and all region tables, with facts checked on the data.
- **Updating every region of a file in order** (`region_updates.dfy`): when the regions are laid out as the registry lays them out, every region verifies afterwards.
- **The tail as evidently intended** (`intended_tail.dfy`): see Findings.

## Two facts about the code

- **The scramble is the standard one.** Line 185 computes `(k * 0x16A88000) | ((k * 0xCC9E2D51) >> 17)`. This equals `rotl(k * 0xCC9E2D51, 15)`, because `0x16A88000` is `0xCC9E2D51 << 15` modulo 2^32 (`Murmur3Properties.ScrambleIsRotate`). The per-word step is therefore the textbook MurmurHash3 step.
- **Where the tail word is read.** Line 208 reads the tail word at `offset + 2 * (size - size % 4)`, because line 201 has already advanced `offset` past the whole words (`Murmur3Properties.TailIndexDoubled`). Lines 209-210 keep the high `size % 4` bytes of that word.
  - For sizes 1 and 2, and for sizes of 5 or more, none of the kept bytes lies inside the range.
  - For size 3 there is no main pass, so the word is read at `offset`: the range's first byte is dropped, and one byte past the range is mixed in.
  - Every region in the registry has a `Size` that is a multiple of 4, so the registered files never take this branch (`RegionUpdates.RegistryOrdered`). The Findings section below records this as a defect.

## Model

| member | source | states |
|---|---|---|
| Bytes.WrapInt32 | HorizonSummer/Checksums.cs:208 | the `(int)` cast of the 64-bit index: it is the identity on values that fit an `int`, and otherwise equals the input modulo 2^32 |
| Bytes.ToUInt32 | HorizonSummer/Checksums.cs:197 | `BitConverter.ToUInt32` yields a word exactly when the four bytes at `index` lie inside the buffer, and the word is their little-endian value; otherwise it throws (None) |
| Bytes.ReadUInt32 | HorizonSummer/Checksums.cs:208 | reading a word from a live array gives what `ToUInt32` gives on its contents, including None for an out-of-range index |
| Bytes.GetBytes | HorizonSummer/Checksums.cs:226 | `BitConverter.GetBytes(uint)` gives four bytes whose little-endian value is the input |
| Bytes.Copy4 | HorizonSummer/Checksums.cs:226 | `Array.Copy` of four bytes puts `src` at `[at, at + 4)`, leaves every other byte as it was and keeps the length |
| Murmur3.Scramble | HorizonSummer/Checksums.cs:183-188 | definition: `Murmur32_Scramble`, lines 185-186 as written in `bv32`; `Murmur3Properties.ScrambleIsRotate` states what it computes |
| Murmur3.Round | HorizonSummer/Checksums.cs:198-200 | definition: the three statements that mix in one whole word; `Murmur3Properties.RoundIsRotate` states what it computes, and `Murmur3.WordStep` uses it |
| Murmur3.Finalize | HorizonSummer/Checksums.cs:214-219 | definition: XOR in the size, then the avalanche finaliser, as written in `bv32`; it is the last step of `Murmur3.Hash` |
| Murmur3.TailIndex | HorizonSummer/Checksums.cs:208 | definition: `(offset + size) - remainder` with the advanced offset, cast to `int`; `Murmur3Properties.TailIndexDoubled` and `Murmur3Properties.TailReadsPastRange` state where that is |
| Murmur3.TailWord | HorizonSummer/Checksums.cs:209-210 | definition: the tail word shifted right by `4 - size % 4` bytes; `Murmur3Properties.TailKeepsHighBytes` states which bytes remain, and `Murmur3.ShiftTail` is the loop proved equal to it |
| Murmur3.Hash | HorizonSummer/Checksums.cs:190-221 | definition: GetMurmur3Hash as a value, None where a read throws; `Murmur3.GetMurmur3Hash` is proved equal to it, and `Murmur3Properties.HashDefinedIff`, `Murmur3Properties.HashFrame` and `Murmur3Properties.HashOfSlice` state when it is defined and what it reads |
| Murmur3.Update | HorizonSummer/Checksums.cs:223-228 | definition: UpdateMurmur32 as a value, the new buffer and the returned hash; `Murmur3.UpdateMurmur32` is proved equal to it, and `Murmur3Properties.UpdateStores` states what it writes |
| Murmur3.Verify | HorizonSummer/Checksums.cs:230-231 | definition: VerifyMurmur32 as a value; `Murmur3.VerifyMurmur32` is proved equal to it, and `Murmur3Properties.VerifyAfterUpdate` and `Murmur3Properties.VerifyIffUpdateUnchanged` relate it to `Update` |
| Murmur3.Words | HorizonSummer/Checksums.cs:195-197 | the main pass reads exactly `n` words |
| Murmur3.ShiftTail | HorizonSummer/Checksums.cs:209-210 | the shift loop of `4 - size % 4` byte shifts leaves `TailWord(w, size)`, the word's high `size % 4` bytes |
| Murmur3.WordStep | HorizonSummer/Checksums.cs:197-201 | one turn of the main loop: defined exactly when word `i` lies in the buffer, and then it extends the rounds by that word |
| Murmur3.WordLoop | HorizonSummer/Checksums.cs:195-202 | the `for` loop over `n` words returns the rounds over those words exactly when they all lie in the buffer, and returns the offset advanced by `4 * n` |
| Murmur3.MainPass | HorizonSummer/Checksums.cs:192-203 | the main pass, skipped below 4 bytes, is defined exactly when its reads fit, and gives the rounds over the whole words |
| Murmur3.Absorb | HorizonSummer/Checksums.cs:192-212 | main pass then tail: the tail word is read at `TailIndex`, shifted and mixed in; None where a read throws |
| Murmur3.GetMurmur3Hash | HorizonSummer/Checksums.cs:190-221 | the method computes `Hash` of the array's contents (None where C# throws); it has no `modifies` clause, so it writes nothing |
| Murmur3.UpdateMurmur32 | HorizonSummer/Checksums.cs:223-228 | returns the hash of the buffer before the write and leaves the array holding `Update`'s buffer; where the hash or the copy throws, the array is unchanged |
| Murmur3.VerifyMurmur32 | HorizonSummer/Checksums.cs:230-231 | reads the stored word first, then hashes; the result is whether the two are equal, and None where either read throws; it writes nothing |
| Murmur3Properties.ScrambleIsRotate | HorizonSummer/Checksums.cs:183-188 | the scramble as written equals `rotl(k * 0xCC9E2D51, 15) * 0x1B873593` for every `k` |
| Murmur3Properties.RoundIsRotate | HorizonSummer/Checksums.cs:198-200 | the two shifts of the state at line 199 are a rotate left by 13 |
| Murmur3Properties.WordsAt | HorizonSummer/Checksums.cs:195-201 | word `j` of the main pass is the little-endian word at `offset + 4 * j` |
| Murmur3Properties.WordsFrame | HorizonSummer/Checksums.cs:195-201 | the main pass's words depend only on the bytes `[offset, offset + 4 * n)` |
| Murmur3Properties.TailIndexDoubled | HorizonSummer/Checksums.cs:201-208 | the tail index is `offset + 2 * (size - size % 4)`, cast to `int` |
| Murmur3Properties.TailKeepsHighBytes | HorizonSummer/Checksums.cs:208-211 | the shifted tail word is the little-endian value of the last `size % 4` of the four bytes read |
| Murmur3Properties.TailReadsPastRange | HorizonSummer/Checksums.cs:205-208 | for every size with a tail, the tail word ends past `offset + size` |
| Murmur3Properties.HashDefinedIff | HorizonSummer/Checksums.cs:190-212 | the hash is defined iff `0 <= offset` and `offset + size <= length` (or `size == 0`) for multiples of 4, and iff `0 <= offset` and `offset + 2 * (size - size % 4) + 4 <= length` otherwise |
| Murmur3Properties.HashFrame | HorizonSummer/Checksums.cs:190-221 | buffers of one length that agree on the whole words of the range and on the kept tail bytes hash alike |
| Murmur3Properties.HashOfSlice | HorizonSummer/Checksums.cs:190-221 | for a multiple of 4 inside the buffer, the hash equals the hash of a copy of the range alone |
| Murmur3Properties.UpdateStores | HorizonSummer/Checksums.cs:223-228 | update succeeds iff the hash is defined and the field fits; it then returns the hash, stores it little-endian at `hashOffset` and changes no other byte |
| Murmur3Properties.UpdateKeepsHash | HorizonSummer/Checksums.cs:223-228 | when the field lies apart from what the hash reads, the write does not change the hash |
| Murmur3Properties.VerifyAfterUpdate | HorizonSummer/Checksums.cs:223-231 | when the field lies apart from what the hash reads, verifying right after an update returns true |
| Murmur3Properties.VerifyIffUpdateUnchanged | HorizonSummer/Checksums.cs:223-231 | verify throws exactly when update throws, and returns true exactly when update would leave the buffer unchanged |
| Murmur3Properties.UpdateIdempotent | HorizonSummer/Checksums.cs:223-228 | when the field lies apart from what the hash reads, a second update changes nothing and returns the same hash |
| HashRegistry.LastWithSize | HorizonSummer/Checksums.cs:67-68 | definition: what the constructor's loop leaves in the dictionary under a size, the last set with that size; `HashRegistry.LastWithSizeNone` and `HashRegistry.LastWithSizeWins` state what it finds |
| HashRegistry.HashInfo.Get | HorizonSummer/Checksums.cs:48-53 | definition: the getter, the dictionary's entry or None for `null`; `HashRegistry.HashInfo.Set` and `HashRegistry.HashInfo.constructor` state what it returns |
| HashRegistry.LastWithSizeNone | HorizonSummer/Checksums.cs:48-53 | the lookup finds nothing (`null`) exactly when no set has that size |
| HashRegistry.LastWithSizeWins | HorizonSummer/Checksums.cs:63-69 | what the lookup finds is a set of that size that no later set shares its size with: the last one wins |
| HashRegistry.DistinctSizesFound | HorizonSummer/Checksums.cs:63-69 | when sizes are distinct, each set is found under its own size |
| HashRegistry.HashInfo.Set | HorizonSummer/Checksums.cs:54-60 | after the setter, `index` gives `value`, every other key gives what it gave before, and the map is the old one updated at `index` |
| HashRegistry.HashInfo.constructor | HorizonSummer/Checksums.cs:63-69 | keeps id and magic, and afterwards every key gives the last set of that FileSize, or None |
| VersionHashInfo.BuildVersionHashInfoList | HorizonSummer/Checksums.cs:97-179 | two fresh HashInfos, revisions 0 and 1 with their magics, each keyed by its revision's sets |
| VersionHashInfo.SizesDistinct | HorizonSummer/Checksums.cs:77-93 | the ten file sizes of both revisions are pairwise distinct |
| VersionHashInfo.EveryKindFound | HorizonSummer/Checksums.cs:97-179 | every file kind of each revision is found under its own size; none is shadowed |
| VersionHashInfo.RevisionsDistinct | HorizonSummer/Checksums.cs:99-139 | the two magics differ, and no size of one revision is a size of the other |
| RegionUpdates.UpdateAll | HorizonSummer.ConsoleApp/Program.cs:33-51 | definition: UpdateMurmur32 on each region of a file, first to last, None once one throws; `RegionUpdates.UpdateAllFrame`, `RegionUpdates.UpdateAllVerifies` and `RegionUpdates.UpdateAllIdempotent` state what it does |
| RegionUpdates.VerifyFrame | HorizonSummer/Checksums.cs:230-231 | verifying a registry-shaped region reads nothing outside `[HashOffset, BeginOffset + Size)` |
| RegionUpdates.UpdateRegion | HorizonSummer/Checksums.cs:223-231 | a registry-shaped region inside the buffer can be updated, and verifies afterwards |
| RegionUpdates.UpdateAllFrame | HorizonSummer/Checksums.cs:223-228 | updating the regions one after another, whenever it succeeds, keeps the buffer's length and changes no byte outside the regions' 4-byte hash fields |
| RegionUpdates.UpdateAllVerifies | HorizonSummer/Checksums.cs:223-231 | updating the regions of an ordered layout one after another succeeds, keeps the length, and leaves every region verifying |
| RegionUpdates.UpdateOfVerified | HorizonSummer/Checksums.cs:223-231 | updating a region that already verifies leaves the buffer unchanged |
| RegionUpdates.UpdateAllOfVerified | HorizonSummer/Checksums.cs:223-231 | when every region verifies, updating them all leaves the buffer unchanged |
| RegionUpdates.UpdateAllIdempotent | HorizonSummer/Checksums.cs:223-228 | updating all regions of an ordered layout twice gives what once gives |
| RegionUpdates.MainRegions100Ordered | HorizonSummer/Checksums.cs:100-120 | the 19 main.dat regions of 1.0.0 have `BeginOffset == HashOffset + 4`, sizes that are multiples of 4, and do not overlap, in order |
| RegionUpdates.MainRegions110Ordered | HorizonSummer/Checksums.cs:140-160 | the same for the 19 main.dat regions of 1.1.0 |
| RegionUpdates.RegistryOrdered | HorizonSummer/Checksums.cs:97-179 | every file kind of both revisions has well-formed regions in order, and the last one ends exactly at FileSize |
| RegionUpdates.RegistryUpdateVerifies | HorizonSummer/Checksums.cs:97-179 | for every file kind and every buffer of its size, updating its regions in order succeeds and leaves each one verifying |
| IntendedTail.IntendedDefinedIff | HorizonSummer/Checksums.cs:205-212 | the corrected hash is defined iff the range lies in the buffer (and, with a tail, ends at index 4 or later) |
| IntendedTail.IntendedTailIsRangeEnd | HorizonSummer/Checksums.cs:205-212 | the corrected tail mixes in exactly the range's last `size % 4` bytes |
| IntendedTail.IntendedReadsRangeOnly | HorizonSummer/Checksums.cs:190-221 | the corrected hash depends on nothing outside `[offset, offset + size)` |
| IntendedTail.AlignedAgrees | HorizonSummer/Checksums.cs:205-206 | for sizes that are multiples of 4, the corrected hash and the hash as written coincide |
| IntendedTail.WrittenTailMissesRange | HorizonSummer/Checksums.cs:201-211 | as written, a 5-byte range at offset 0 ignores its last byte and throws on a buffer shorter than 12 bytes; the corrected hash is defined there |

## Findings

| source | as written | input that shows it | evidently intended | confidence | as-written member | corrected member |
|---|---|---|---|---|---|---|
| HorizonSummer/Checksums.cs:201-208 | the tail word is read at `(offset + size) - remainder` after `offset` was advanced by the main loop, so at `begin + 2 * (size - size % 4)`; only its high bytes are kept | `size = 5`, `offset = 0`: the word at index 8 is read and byte 11 is mixed in; byte 4, the range's last byte, never is, and a 5-byte buffer throws | mix in the range's last `size % 4` bytes, taken from the word ending at `offset + size` | not executed; the index arithmetic is certain, the intent is inferred | IntendedTail.WrittenTailMissesRange | IntendedTail.IntendedTailIsRangeEnd |

The corrected definition is `IntendedTail.IntendedHash`. Every size in the registry is a multiple of 4, and for those sizes `IntendedTail.AlignedAgrees` proves that the two definitions coincide. So the registry results in `RegionUpdates` hold for the corrected hash as well.

## Left out

- `HorizonSummer.ConsoleApp/Program.cs` is modelled only in one respect: regions are updated one after another in listed order, which is `RegionUpdates.UpdateAll`. Its console prompting, file reading and writing, and its own copy of some region tables are left out. So is the read of the old hash that `UpdateAndPrint` does for its message (line 87) before it calls `UpdateMurmur32`.
- Matching a file's first 16 bytes against `RevisionMagic`: no code in the core reads the magic from a buffer. The magic values themselves are modelled.
- The `IEnumerable` plumbing of `HashSet` (lines 27-29) is left out. The regions are a `seq`.
- `FileName` is kept as a string field and is used by nothing.
- Host endianness: `BitConverter` is modelled little-endian only.
- `RevisionMagic` and `HashRegions` are shared arrays in C#. They are modelled as immutable sequences, so aliasing is not modelled.
- `HashInfo.Get` has no contract of its own. What the getter returns is stated by the `Set` and constructor contracts, in terms of `Get`.
- The `Dictionary`'s own behaviour (hashing, capacity) is left out. `ContainsKey` followed by an overwrite or an `Add` is one map update; the `Add` cannot throw because it is guarded.
- Which exception C# throws (`ArgumentOutOfRangeException` or `ArgumentException`) is left out. Every throw is `None`.
- Murmur3.WordLoop: C#'s `offset += 4` is not incremented inside the loop. The read index `offset + 4 * i` is used instead, and `offset + 4 * n` is returned. The two are equal, and the C# increment cannot overflow, because each increment follows a successful read inside an array of at most `int.MaxValue` bytes.
- Murmur3.GetMurmur3Hash: the six finaliser statements (lines 214-219), the scramble, and the three statements that mix in a whole word (lines 198-200) are written once, as the functions `Finalize`, `Scramble` and `Round`, which the methods call. They are not repeated as separate statements on a local variable.
- `RegionUpdates.UpdateAll` returns None at the first region whose update throws. The C# array, with the earlier regions already rewritten, is not modelled in that case. Only the success case carries a buffer.
