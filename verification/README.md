# Verified models of the AkiraOS core algorithms

This project models six parts of the AkiraOS firmware and proves what they are for.

- **Package unpacking** (`Bits`, `Huffman`, `HuffTable`, `Deflate`, `DeflateFormat`, `DeflateEncoder`,
  `CodeTables`, `DeflateSound`, `Inflater`, `Gzip`, `Tar`, `Package`, `Packer`). The buffered decoder is a class with the fields of the C
  state. Each of its methods is proved equal to a function on the bit string of the input; those
  functions are proved to invert the DEFLATE format of RFC 1951, which is written down separately as
  predicates over bit positions, with stored, fixed and dynamic blocks in any mix; the code tables and
  orders of the RFC are written out in literal form, and whatever the decoder accepts is proved to have
  been written so. The gzip header of
  RFC 1952 and the tar walk complete the chain up to the round trip of a whole package, and a writer
  shows that every application and manifest within the size limit, under any directories, has a package.
- **Settings store** (`NvsStore`, `PowerCuts`, `Settings`). Every flash write is one atomic step, and every
  operation is proved to make an exact list of writes in order. Crash atomicity is a statement about
  the prefixes of these lists followed by any number of interrupted start-ups, and over runs of such
  operations; over uninterrupted runs the store is a finite map.
- **Runtime indexes** (`InstanceMap`, `ModuleCache`, `AppSlots`, `Runtime`). The open-addressing
  pointer table without tombstones, the counted module cache and the app slots run as one state
  machine. What each step gives up, takes and leaves alone is stated in full; the invariant gives lookups of live instances, ownership of modules, and which modules are
  still loaded, over every run.
- **Topic messaging** (`Topics`, `Ipc`). The fixed tables refine a map from (topic, app) to a bounded
  queue; over every history a queue holds exactly what was accepted and not yet received.
- **Raster drawing** (`Raster`). Lines and circles change exactly the visible pixels given by rounding
  conditions that determine every point.
- **Small parsers and protocols** (`Json`, `JsonDocs`, `Wasm`, `Manifests`, `Calendar`, `BufPool`). The manifest
  parser against a printer of documents, the section walk, the calendar conversions, and the buffer
  pool under any interleaving of threads.

`Errno` and `Slices` hold shared small definitions. The loops of the C code are methods with
invariants; what they compute is stated with functions of the same content, and the theorems are
lemmas about these functions.

Seven properties one might expect are false of the code. For each there is an input on which it fails
and the exact condition under which it holds:

- a delete removes its key: not after a power cut that left the key twice (`DeleteRemovesIff`,
  `CutDeleteLeavesTwo`), and `PowerCut` says which cuts do that;
- a start-up cut short keeps keys distinct: not if it leaves a record in its old and its new slot
  (`BootsDistinctIff`, `CutBootLeavesTwo`);
- a removed instance pointer is gone from the table: a removal that stops at a free bucket leaves its
  entry, and puts of other pointers bring it back (`RemoveClearsIff`, `RemovedReturnsIff`,
  `StaleEntryReturns`);
- every loaded module belongs to a slot in use: a start timeout abandons the module of its slot, and it
  is never unloaded (`RunOwnership`, `AbandonedForever`, `StartTimeoutLeaks`);
- topic and app names stay unique: names too long for their field collide (`SubscribeKeepsIff`,
  `TwoLongNames`);
- an accepted date is shown as itself: 31 February is shown as 3 March (`DateRoundTripIff`,
  `LateDayShown`);
- every epoch is shown as a date that exists: those before 1970 are not (`EpochRoundTrip`,
  `BeforeStart`).

The comment in `src/lib/akpkg.c` speaks of
two zero blocks at the end of an archive; the code stops at the first, and so does the model.

## Model

| member | source | states |
|---|---|---|
| Huffman.CodesFit | src/lib/akpkg.c:140-146 | under a Kraft sum of at most 1 the code values of every length fit that length |
| Huffman.FirstIsCodeStart | src/lib/akpkg.c:140-146 | the 16-bit first codes are the canonical ones of RFC 1951 section 3.2.2: nothing wraps |
| Huffman.DecodeInvertsCode | src/lib/akpkg.c:119-200 | reading a symbol's code returns that symbol and consumes exactly its length |
| Huffman.DecodeOnlyCodes | src/lib/akpkg.c:179-200 | whatever the bits are, a decoded symbol's code is what was read |
| Huffman.DecodeIffCode | src/lib/akpkg.c:179-200 | a symbol is decoded if and only if its code stands at the position |
| Huffman.PrefixFree | src/lib/akpkg.c:119-200 | no code is a prefix of another symbol's code |
| Huffman.ShortCodeRejected | src/lib/akpkg.c:183-199 | no proper prefix of a code is accepted |
| CodeTables.CanonicalFirst | src/lib/akpkg.c:140-167 | the first symbol, by length and then by number, has the code of zeros (RFC 1951 section 3.2.2) |
| CodeTables.CanonicalNext | src/lib/akpkg.c:140-167 | each next symbol has the code one more, with zeros appended up to its length; with the first this determines every code |
| CodeTables.FifteenBits | src/lib/akpkg.c:121-138 | lengths up to 15 and no longer are legal, and a full code of that depth is decodable |
| HuffTables.HuffTable.CountLengths | src/lib/akpkg.c:121-138 | the counts array is the number of symbols of each length, and the maximum is right; a length over 15 is refused |
| HuffTables.HuffTable.FillFirst | src/lib/akpkg.c:140-146 | the first-code array holds the first code of every length |
| HuffTables.HuffTable.FillOffset | src/lib/akpkg.c:148-156 | the offset array holds the number of symbols with shorter codes |
| HuffTables.HuffTable.PlaceSymbols | src/lib/akpkg.c:158-167 | every coded symbol lies at the offset of its length plus its rank |
| HuffTables.HuffTable.Build | src/lib/akpkg.c:119-170 | the four arrays represent the length vector, or the vector is refused because of a length over 15 |
| HuffTables.HuffTable.Lookup | src/lib/akpkg.c:190-196 | the array test for a code word equals the abstract one |
| Deflate.CopyIsPeriodic | src/lib/akpkg.c:299-308 | the byte-by-byte overlapping copy equals the copy from `src + i % distance` |
| Inflaters.LengthTables | src/lib/akpkg.c:205-218 | the length tables are contiguous ranges from 3 with the RFC's extra bits, up to the special code 258 |
| Inflaters.DistanceTables | src/lib/akpkg.c:219-235 | the distance tables are contiguous ranges from 1 with the RFC's extra bits |
| Inflaters.LenBaseValues | src/lib/akpkg.c:205-218 | the 29 length bases, in figures |
| Inflaters.DistBaseValues | src/lib/akpkg.c:219-235 | the 30 distance bases, in figures |
| Inflaters.ClenOrderTable | src/lib/akpkg.c:419-422 | the order table is the sending order of RFC 1951 section 3.2.7 |
| DeflateFormat.ClenPlaceInjective | src/lib/akpkg.c:419-422 | that order names no code-length symbol twice |
| DeflateFormat.ClenIndex | src/lib/akpkg.c:419-422 | and names each of the 19 somewhere |
| CodeTables.SendingOrder | src/lib/akpkg.c:418-432 | the `i`-th three bits sent become the length of the `i`-th symbol of 16, 17, 18, 0, 8, 7, ..., 15; symbols not sent have none |
| Inflaters.Inflater.Refill | src/lib/akpkg.c:63-70 | refilling keeps the buffer equal to the next bits of the input and does not move the abstract position |
| Inflaters.Inflater.Drop | src/lib/akpkg.c:86-88 | dropping `n` bits moves the position by `n` and leaves the buffer right |
| Inflaters.Inflater.ReadBits | src/lib/akpkg.c:72-89 | returns the next `n` bits of the stream, least significant first, for any buffer state; fails exactly at the end |
| Inflaters.Inflater.Align | src/lib/akpkg.c:91-99 | lands on the next byte boundary of the abstract position |
| Inflaters.Inflater.Rewind | src/lib/akpkg.c:321-327 | giving prefetched bytes back leaves the abstract position where it was |
| Inflaters.Inflater.Emit | src/lib/akpkg.c:102-111 | appends one byte, or fails at the capacity; no other byte of the buffer changes |
| Inflaters.Inflater.DecodeSymbol | src/lib/akpkg.c:179-200 | decodes what the abstract canonical decoder decodes on the stream |
| Inflaters.Inflater.ReadMatch | src/lib/akpkg.c:266-292 | length and distance of a match with all its error cases |
| Inflaters.Inflater.CopyBack | src/lib/akpkg.c:299-308 | the copy is the overlapping LZ77 copy, cut off at the capacity |
| Inflaters.Inflater.DecodeCodes | src/lib/akpkg.c:241-311 | the symbol loop equals the abstract one; it ends because every turn reads bits |
| Inflaters.Inflater.CopyStored | src/lib/akpkg.c:348-355 | copies exactly the announced input bytes |
| Inflaters.Inflater.BlockStored | src/lib/akpkg.c:317-358 | a stored block: alignment, rewind, length check by complement, bytes |
| Inflaters.Inflater.BlockFixed | src/lib/akpkg.c:361-399 | a block with the fixed codes of RFC 1951 section 3.2.6 |
| Inflaters.Inflater.ReadClens | src/lib/akpkg.c:424-432 | the code-length code lengths, placed by the order table |
| Inflaters.Inflater.ApplyLength | src/lib/akpkg.c:472-517 | one code-length symbol with its repeats and its error cases |
| Inflaters.Inflater.ReadAllLengths | src/lib/akpkg.c:461-518 | all code lengths of a dynamic block; every turn reads bits |
| Inflaters.Inflater.BlockDynamic | src/lib/akpkg.c:404-548 | a dynamic block equals the abstract one of RFC 1951 section 3.2.7 |
| Inflaters.Inflater.InflateRaw | src/lib/akpkg.c:553-588 | on arbitrary bytes: ends, writes only below the capacity, keeps emitted bytes, and computes the abstract inflation |
| DeflateFormat.FixedLitPrefixable | src/lib/akpkg.c:361-378 | the fixed literal code has Kraft sum exactly 1 |
| CodeTables.LitReadIff | src/lib/akpkg.c:361-399 | with the fixed lengths a literal/length symbol is read if and only if its bits of the table of RFC 1951 section 3.2.6 stand there |
| CodeTables.DistCodeIs | src/lib/akpkg.c:380-390 | the fixed distance codes are the five-bit numbers |
| CodeTables.FixedBlockInflates | src/lib/akpkg.c:361-399 | a last block of type 01 written with that table inflates to its LZ77 expansion |
| CodeTables.FixedBytesInflate | src/lib/akpkg.c:361-399 | any bytes written with it come back |
| CodeTables.LetterA | src/lib/akpkg.c:553-588 | the bytes 4B 04 00 inflate to the letter a |
| DeflateFormat.CodesInvert | src/lib/akpkg.c:241-311 | decoding any written token sequence yields its LZ77 expansion |
| DeflateFormat.StoredInverts | src/lib/akpkg.c:317-358 | decoding a written stored block yields its bytes |
| DeflateFormat.ItemsInvert | src/lib/akpkg.c:461-518 | decoding written code-length items yields the lengths they stand for |
| DeflateFormat.ClenInverts | src/lib/akpkg.c:418-432 | the permuted 3-bit fields give back the code-length code |
| DeflateFormat.DynamicInverts | src/lib/akpkg.c:404-548 | a written dynamic block is decoded with the codes it describes |
| DeflateFormat.BlockInverts | src/lib/akpkg.c:553-588 | any written block is decoded to its expansion and ends where it ends |
| DeflateFormat.InflateInverts | src/lib/akpkg.c:241-588 | for every mix of blocks, inflating a written stream outputs exactly the LZ77 expansion if it fits, and the overflow error otherwise |
| DeflateSound.CodesSound | src/lib/akpkg.c:241-311 | decoded symbols are written tokens with every distance inside the output, and the output is their expansion |
| DeflateSound.StoredSound | src/lib/akpkg.c:317-358 | an accepted stored block is a written one: lengths that are not complements, and cut data, are refused |
| DeflateSound.ItemsSound | src/lib/akpkg.c:461-518 | accepted code lengths are written items; a repeat with nothing before it is refused |
| DeflateSound.DynamicSound | src/lib/akpkg.c:404-548 | an accepted dynamic block has a written head and tokens in the codes it describes |
| DeflateSound.InflateIff | src/lib/akpkg.c:553-588 | the decoder succeeds if and only if a stream of the format is written there whose data fits the buffer; then the output is that data and the position its end |
| DeflateEncoder.EncodedIsWritten | src/lib/akpkg.c:241-588 | every encodable block sequence has a bit string in the written format |
| DeflateEncoder.EncodeInflate | src/lib/akpkg.c:553-588 | encode, pack into bytes, inflate: the expansion comes back |
| DeflateEncoder.PairsEncodableIff | src/lib/akpkg.c:205-235 | with codes for all symbols, exactly the lengths 3 to 258 and distances 1 to 32768 can be written |
| DeflateEncoder.FixedCodesAll | src/lib/akpkg.c:361-378 | the fixed codes have a code for each of these symbols, each byte and the end of the block |
| Bits.PackUnpack | src/lib/akpkg.c:63-70 | packing bits into bytes, low bit first, loses nothing |
| Gzip.GzipParse | src/lib/akpkg.c:606-665 | the header parser's loops compute the abstract parse, with every error case |
| Gzip.ParseInverts | src/lib/akpkg.c:606-665 | any header with any combination of the four optional fields (RFC 1952 section 2.3) is skipped exactly, and the size is the trailer's |
| Gzip.ParseSound | src/lib/akpkg.c:606-665 | whatever is accepted has that format before the start offset |
| Gzip.ParseAcceptsIff | src/lib/akpkg.c:606-665 | accepted if and only if it has that format; otherwise ENOTSUP for another method than 8, EINVAL for anything else |
| Tar.TarOctal | src/lib/akpkg.c:674-685 | the octal field in 32-bit arithmetic |
| Tar.TarExtract | src/lib/akpkg.c:1026-1091 | the walk on arbitrary bytes computes the abstract walk, whose slices lie inside the archive |
| Tar.WalkInverts | src/lib/akpkg.c:1035-1079 | over any archive the walk finds the last application and the last manifest |
| Package.AkpkgInflate | src/lib/akpkg.c:696-737 | inflates into the caller's buffer, touches nothing beyond the capacity, returns the length of the data, and gives every error code |
| Package.UnzipAnnounced | src/lib/akpkg.c:696-737 | for any announced size: ENOMEM if it is zero or over the buffer, EIO if the data is larger, and else the data |
| Package.UnzipInverts | src/lib/akpkg.c:696-737 | a gzip member of any header and any written stream yields its data, or ENOMEM if the buffer is smaller |
| Package.ExtractInverts | src/lib/akpkg.c:1026-1091 | extraction returns the bytes of the last matching entries, or ENOENT |
| Package.UnpackageAnnounced | src/runtime/app_manager/app_manager.c:1891-1930 | an announced size of zero or over 4 MiB is refused, larger data is an I/O error, and else the archive decides |
| Package.UnpackPackage | src/runtime/app_manager/app_manager.c:1888-1930 | the checks, the buffer of the announced size, inflation, and extraction from the bytes reported written |
| Package.PackageRoundTrip | src/runtime/app_manager/app_manager.c:1891-1930 | for every archive in every gzip wrapping, unpacking returns the packed application and manifest, later entries winning |
| Packer.StoredStreamHolds | src/lib/akpkg.c:317-358 | any data is the expansion of stored blocks of at most 65535 bytes |
| Packer.ZippedIsMember | src/lib/akpkg.c:606-737 | any header around the encoding of any encodable stream is a gzip member of its data |
| Packer.FileEntryOk | src/lib/akpkg.c:1026-1091 | a header block can be written for any name, type and file |
| Packer.KindOf | src/lib/akpkg.c:1058-1078 | a file is the application if and only if the last part of its name is app.wasm or app.aot, and the manifest if and only if that is manifest.json; type 0 and type '0' alike |
| Packer.OtherTypes | src/lib/akpkg.c:1058-1078 | a file of any other type is neither |
| Packer.PackUnpackage | src/runtime/app_manager/app_manager.c:1891-1930 | every application, built either way, and manifest, under any directories, have a package; unpacking returns them if the archive is at most 4 MiB and refuses it otherwise |
| NvsStore.Find | src/settings/settings.c:459-478 | the scan skips holes and returns the first slot with the key |
| NvsStore.PresentFirst | src/settings/settings.c:415-424 | the first record with a key is the first with that key among the packed ones |
| NvsStore.CompactState | src/settings/settings.c:426-437 | the slots after any prefix of a compaction's writes |
| NvsStore.CompactKeepsLookups | src/settings/settings.c:401-446 | at any prefix of its writes a compaction changes no lookup, for every store, distinct keys or not |
| NvsStore.HealMakesContiguous | src/settings/settings.c:824-862 | start-up always leaves a store without holes |
| NvsStore.BootsKeepLookups | src/settings/settings.c:798-867 | any number of interrupted start-ups changes no lookup |
| NvsStore.SetLookup | src/settings/settings.c:935-974 | after any prefix of a set's writes every lookup is old, after all of them new; needs no distinct keys |
| NvsStore.DeleteLookup | src/settings/settings.c:1097-1140 | after the first write of a delete every lookup is new |
| PowerCuts.CutSetStore | src/settings/settings.c:935-974 | whatever write of a set is the last, no hole and no second record with a key |
| PowerCuts.CutDeleteStore | src/settings/settings.c:1097-1140 | the store after each write of a delete: a hole only in the last slot, a key twice only right after the move |
| PowerCuts.PowerCut | src/settings/settings.c:401-446 | a set or delete cut anywhere, then start-ups cut anywhere: all lookups are the old map or all are the new map, as the number of writes made says, and keys stay distinct if and only if it was not a delete cut right after its move |
| PowerCuts.RunOfCuts | src/settings/settings.c:798-1142 | over any run of operations cut anywhere but there, with any interrupted start-ups between, the store is the map of those that took effect |
| PowerCuts.PackedDistinctIff | src/settings/settings.c:415-437 | a compaction cut after `j` slots keeps keys distinct if and only if no hole is below `j` or no record is left from `j` on |
| PowerCuts.BootsDistinctIff | src/settings/settings.c:798-867 | after any start-ups keys are distinct if and only if they were and none was cut so |
| PowerCuts.CutBootLeavesTwo | src/settings/settings.c:415-437 | a start-up cut after two writes after which a key is there twice for good |
| PowerCuts.DeleteRemovesIff | src/settings/settings.c:1077-1142 | on a store without holes a delete removes its key if and only if the key was there once |
| PowerCuts.CutDeleteLeavesTwo | src/settings/settings.c:1101-1125 | a concrete power cut after which deleting a key does not remove it |
| Settings.Store.GetId | src/settings/settings.c:448-485 | the scan loop is the abstract lookup, with different errors for a missing counter and a missing key |
| Settings.TruncatedIsLongest | src/settings/settings.c:1048-1049 | a value cut to a buffer is its longest beginning that leaves room for the terminator |
| Settings.Store.Set | src/settings/settings.c:924-978 | the checks in order, exactly the writes of a set, in order, and so the step of the runs below |
| Settings.Store.Get | src/settings/settings.c:1005-1052 | the value of the first record with the key, cut to the caller's buffer, with every error |
| Settings.Store.Delete | src/settings/settings.c:1077-1142 | exactly the writes of a delete, in order, with every error, and so the step of the runs |
| Settings.Store.Compact | src/settings/settings.c:401-446 | the three loops make exactly the writes of a compaction, in order |
| Settings.Store.InitFlash | src/settings/settings.c:798-867 | creates a missing counter, compacts exactly if there is a hole |
| Settings.Store.Clear | src/settings/settings.c:1166-1180 | leaves an empty initialized store |
| Settings.SetLayout | src/settings/settings.c:944-961 | a set keeps records contiguous with distinct keys and counts a new key |
| Settings.DeleteLayout | src/settings/settings.c:1097-1140 | moving the last record into the gap keeps them so and counts one less |
| Settings.ServedHolds | src/settings/settings.c:869-1180 | every request does to the finite map what it means |
| Settings.RoomIff | src/settings/settings.c:944-961 | there is a free record id exactly for a key that is there, or while the map has fewer than 65534 |
| Settings.RunHolds | src/settings/settings.c:869-1180 | after any run whose sets had room the store holds exactly the finite map of the requests |
| Settings.RunFetched | src/settings/settings.c:1005-1052 | a read after any such run returns the last value set, cut to the buffer, or not found |
| InstanceMaps.PutRight | src/runtime/runtime_cache.c:260-283 | a put makes the first bucket of its pointer right, even with stale copies or a full table |
| InstanceMaps.PutKeepsRight | src/runtime/runtime_cache.c:260-283 | and no other pointer's |
| InstanceMaps.RemoveKeepsRight | src/runtime/runtime_cache.c:309-331 | a removal leaves every other pointer's first bucket right |
| InstanceMaps.GetRight | src/runtime/runtime_cache.c:285-307 | a get returns the right slot or misses |
| InstanceMaps.PutThenGet | src/runtime/runtime_cache.c:260-307 | a put that found a place is found by the next get without a scan |
| InstanceMaps.RemoveForgets | src/runtime/runtime_cache.c:309-331 | right after its removal a pointer is not found |
| InstanceMaps.RemoveClearsIff | src/runtime/runtime_cache.c:309-331 | a removal leaves no copy of its pointer if and only if there was none, or it was found and stood on no later probe |
| InstanceMaps.ForeignKeepRight | src/runtime/runtime_cache.c:260-331 | no puts and removals of other pointers change what the first bucket of a pointer says, or give it one |
| InstanceMaps.FilledIsFound | src/runtime/runtime_cache.c:260-307 | a copy out of reach is found again once other pointers fill the free buckets before it |
| InstanceMaps.ComesBackIff | src/runtime/runtime_cache.c:260-331 | some puts and removals of other pointers make a pointer found if and only if its first bucket says a slot |
| InstanceMaps.RemovedReturnsIff | src/runtime/runtime_cache.c:309-331 | a removed pointer can be found again without a put of it if and only if its removal left a copy |
| InstanceMaps.StaleEntryReturns | src/runtime/runtime_cache.c:309-331 | two puts, two removals and a put from the empty table after which a removed pointer is found |
| InstanceMaps.InstanceMap.InsertAt | src/runtime/runtime_cache.c:260-283 | the probing loop is the abstract put |
| InstanceMaps.InstanceMap.SlotOf | src/runtime/runtime_cache.c:285-307 | the probing loop is the abstract get |
| InstanceMaps.InstanceMap.RemoveInst | src/runtime/runtime_cache.c:309-331 | the probing loop is the abstract removal |
| ModuleCaches.FindOldestIsOldest | src/runtime/runtime_cache.c:67-74 | the eviction scan finds the least recently used entry without references, and none exactly if all have some |
| ModuleCaches.StoreCaches | src/runtime/runtime_cache.c:110-174 | with every entry referenced, a store counts a cached hash once more or fills a vacant entry, and changes nothing cached under another hash |
| ModuleCaches.StoreEvicts | src/runtime/runtime_cache.c:126-156 | with no vacant entry the oldest unreferenced one is unloaded, its hash forgotten, and the new hash cached in its place |
| ModuleCaches.StoreStamps | src/runtime/runtime_cache.c:110-174 | a stored hash carries the time of the store |
| ModuleCaches.ReleaseCounts | src/runtime/runtime_cache.c:176-189 | a release counts one reference less, never below zero, and touches no other hash |
| ModuleCaches.DropForgets | src/runtime/runtime_cache.c:176-209 | release and invalidate together forget the hash and no other |
| ModuleCaches.ModuleCache.FindLruLocked | src/runtime/runtime_cache.c:55-83 | the two passes: a vacant entry first, then the eviction scan |
| ModuleCaches.ModuleCache.StoreModule | src/runtime/runtime_cache.c:110-174 | the new entries and the module evicted |
| ModuleCaches.ModuleCache.ReleaseModule | src/runtime/runtime_cache.c:176-189 | one reference less, never below zero |
| ModuleCaches.ModuleCache.InvalidateModule | src/runtime/runtime_cache.c:191-209 | the entry of the hash is vacant |
| AppSlots.StoreNeverEvicts | src/runtime/runtime_cache.c:126-156 | in every reachable state a store evicts nothing |
| AppSlots.StoreOk | src/runtime/akira_runtime.c:583-602 | after a load cached hashes are distinct and every entry has a reference, and an owner unless a start timeout lost its module |
| AppSlots.DropOk | src/runtime/akira_runtime.c:770-775 | release with invalidate keeps that, whichever slot of the hash leaves |
| AppSlots.LoadTakes | src/runtime/akira_runtime.c:436-602 | a load fills the first free slot, loads exactly its module, counts or caches its hash, and changes no other slot, hash or table entry |
| AppSlots.TornGivesUp | src/runtime/akira_runtime.c:718-778 | a clean-up unloads exactly the slot's module, forgets exactly its hash, its instance is not found any more, and no other slot changes |
| AppSlots.StopEnds | src/runtime/akira_runtime.c:888-970 | stopping a running app does that and leaves the slot stopped, reserved only after an abort |
| AppSlots.StopOthers | src/runtime/akira_runtime.c:888-970 | stopping any other app changes at most its status |
| AppSlots.DestroyFrees | src/runtime/akira_runtime.c:1035-1097 | destroying does that from any status and frees the slot |
| AppSlots.ExitFrees | src/runtime/akira_runtime.c:718-778 | a thread that ends by itself does that and frees the slot |
| AppSlots.StartRuns | src/runtime/akira_runtime.c:803-885 | a successful start makes the slot run the instance and changes nothing else but the table |
| AppSlots.StartFails | src/runtime/akira_runtime.c:803-885 | a start whose instantiation fails gives up all the slot had and frees it |
| AppSlots.NothingToDo | src/runtime/akira_runtime.c:803-1097 | a slot not in use, a running app started again and a full array change nothing |
| AppSlots.StartIsFound | src/runtime/akira_runtime.c:678-682 | a started instance is found by the table alone if the table had a place |
| AppSlots.NextKeeps | src/runtime/akira_runtime.c:421-1097 | load, start, start timeout, exit, stop, destroy and lookup keep the invariant across slots, cache and table, given the modules abandoned so far |
| AppSlots.StartTimeoutKeeps | src/runtime/akira_runtime.c:857-866 | a start timeout moves the module of its slot from the owned to the abandoned, and nothing else |
| AppSlots.RunOwnership | src/runtime/akira_runtime.c:583-602 | over any run the modules loaded and not unloaded are those of the slots in use, one each, and apart from them those abandoned by start timeouts; none is unloaded twice; nothing is lost if and only if nothing was abandoned |
| AppSlots.RunCache | src/runtime/runtime_cache.c:55-209 | over any run cached hashes are distinct and each cached module is still loaded and referenced, and owned, under its hash, by a slot in use unless it was abandoned |
| AppSlots.OwnerUnique | src/runtime/runtime_cache.c:55-209 | that slot is the only one |
| AppSlots.NextExtends | src/runtime/akira_runtime.c:421-1097 | every step unloads only modules of slots in use |
| AppSlots.AbandonedForever | src/runtime/akira_runtime.c:857-866 | over every run an abandoned module stays loaded, is never unloaded and is never again a slot's |
| AppSlots.AbandonedIff | src/runtime/akira_runtime.c:857-866 | a module is abandoned if and only if a start timeout hit the slot in use that had it |
| AppSlots.ReloadForgets | src/runtime/akira_runtime.c:583-602 | the next load of that slot overwrites the last handle of the module |
| AppSlots.StartTimeoutLeaks | src/runtime/akira_runtime.c:857-866 | from start-up: load, start timeout, load leave a module loaded that no slot knows |
| AppSlots.LookupFindsOwn | src/runtime/akira_runtime.c:259-280 | a live instance is found in its own slot |
| AppSlots.LookupRepairs | src/runtime/akira_runtime.c:259-280 | a lookup changes only the table, and leaves a live instance found by it alone if there is a place |
| AppSlots.RunRunning | src/runtime/akira_runtime.c:421-1097 | over any run a slot has an instance exactly while it runs, and then it is in use and has its module |
| AppSlots.RunLookup | src/runtime/akira_runtime.c:259-280 | the same over any run, repairs included |
| Runtimes.IsBinaryIff | src/runtime/akira_runtime.c:429-434 | a binary has eight bytes at least and starts with a zero byte and asm or aot |
| Runtimes.Runtime.LoadWasm | src/runtime/akira_runtime.c:436-608 | the checks in order, slot reservation, its release on failure, the cache store, and every error |
| Runtimes.Runtime.ThreadEnd | src/runtime/akira_runtime.c:718-778 | clean-up at the end of an app's thread |
| Runtimes.Runtime.StartApp | src/runtime/akira_runtime.c:803-885 | instantiation, table entry, the failing start and the start timeout, with every error |
| Runtimes.Runtime.StopApp | src/runtime/akira_runtime.c:888-970 | waiting stop and aborting stop |
| Runtimes.Runtime.DestroyApp | src/runtime/akira_runtime.c:1035-1097 | stop, clean-up, free slot |
| Runtimes.Runtime.SlotForInst | src/runtime/akira_runtime.c:259-280 | table lookup, then the scan with repair |
| Topics.HasPlaceIff | src/runtime/akira_ipc.c:63-140 | there is a place exactly for an app already there, in a free row of the topic, or for a new topic in a free topic |
| Topics.SubscribeOk | src/runtime/akira_ipc.c:156-186 | only the named queue appears, empty, exactly if there is a place; names stay unique |
| Topics.SubscribeKeepsIff | src/runtime/akira_ipc.c:63-140 | names stay unique if and only if no stored name is the cut of a longer one asked for |
| Topics.LongNamesCollide | src/runtime/akira_ipc.c:63-140 | from start-up, two topics whose long names begin alike are stored under one name |
| Topics.TwoLongNames | src/runtime/akira_ipc.c:63-140 | two such names of 32 characters |
| Topics.LeaveOk | src/runtime/akira_ipc.c:188-226 | unsubscribing removes only the named queue; an empty topic is freed |
| Topics.PublishOk | src/runtime/akira_ipc.c:228-267 | every queue of the topic with room gets the message at its end, no other queue changes |
| Topics.DeliveredCount | src/runtime/akira_ipc.c:250-266 | the result is how many apps' queues grew |
| Topics.PopOk | src/runtime/akira_ipc.c:269-304 | a receive takes the head of the named queue only |
| Topics.CleanupOk | src/runtime/akira_ipc.c:331-371 | the app is gone from every topic, nobody else's queue changes |
| Topics.RunOk | src/runtime/akira_ipc.c:63-371 | over any history: unique names, a topic used exactly with a subscriber, and queue contents equal to accepted minus received |
| Ipc.Broker.SubscribeApp | src/runtime/akira_ipc.c:156-186 | the table after a subscription, with EINVAL and ENOMEM |
| Ipc.Broker.UnsubscribeApp | src/runtime/akira_ipc.c:188-226 | the table after leaving, ENOENT exactly if there was no queue |
| Ipc.Broker.PublishMsg | src/runtime/akira_ipc.c:228-267 | the table after a publish and the count, EMSGSIZE for a wrong length |
| Ipc.Broker.Receive | src/runtime/akira_ipc.c:269-304 | the head cut to the buffer, ENOENT, or EAGAIN when empty |
| Ipc.Broker.Pending | src/runtime/akira_ipc.c:306-329 | the queue's length |
| Ipc.Broker.CleanupApp | src/runtime/akira_ipc.c:331-371 | the table after the clean-up of an app |
| Raster.OnLineUnique | src/api/akira_display_api.c:183-209 | the rounding condition leaves one point for each step |
| Raster.LineStep | src/api/akira_display_api.c:197-207 | one turn of the loop takes the rounded point to the next, and the error term with it |
| Raster.LineIsStraight | src/api/akira_display_api.c:183-209 | ends at both ends, in their box, at most half a pixel off |
| Raster.LineClosed | src/api/akira_display_api.c:183-209 | point `k` in closed form: the longer axis takes every step, the other is rounded to the nearest, halves up |
| Raster.LineUnique | src/api/akira_display_api.c:183-209 | the points of a line are determined, in order |
| Raster.Display.Line | src/api/akira_display_api.c:183-209 | paints exactly the `max + 1` points of the line |
| Raster.CircleStep | src/api/akira_display_api.c:211-231 | the decision value's closed form and the nearness of the pixel are kept by a turn |
| Raster.NearIsNearest | src/api/akira_display_api.c:211-231 | a pixel is taken exactly if the circle passes its row less than half a pixel away |
| Raster.OnCircleIff | src/api/akira_display_api.c:211-231 | so the points of the circle, by the larger and the smaller of their coordinates |
| Raster.NearUnique | src/api/akira_display_api.c:211-231 | one pixel for each octant row |
| Raster.NoFurther | src/api/akira_display_api.c:217-230 | no pixel of the circle is on a row the loop did not reach |
| Raster.Display.Circle | src/api/akira_display_api.c:211-231 | an offset is painted if and only if `-a <= a^2 + b^2 - r^2 < a` for its larger and smaller coordinate |
| Raster.PaintAllAt | src/api/akira_display_api.c:67-84 | a visible pixel changes exactly if it is one of the points |
| Raster.BufferAt | src/api/akira_display_api.c:67-84 | in the buffer place `k` is column `k % w` of row `k / w`, and changes exactly if that is one of the points |
| Json.ReadString | src/runtime/manifest_parser.c:81-126 | the string loop with escapes, the buffer limit and its refusals |
| Json.SkipValue | src/runtime/manifest_parser.c:453-481 | the value skipper's loop |
| Json.ReadCaps | src/runtime/manifest_parser.c:241-282 | the capability array loop |
| Json.ParseJson | src/runtime/manifest_parser.c:165-490 | the parser's main loop with every error case, the network policy apart |
| JsonDocs.StringReads | src/runtime/manifest_parser.c:81-126 | a literal is read whole if it fits its buffer and refused otherwise |
| JsonDocs.ValueSkipped | src/runtime/manifest_parser.c:453-481 | a nested value, with braces, commas and escapes in its strings, is passed over whole |
| JsonDocs.DocReads | src/runtime/manifest_parser.c:165-490 | parsing any printed document gives its meaning, with any of the four kinds of white space and further commas, whatever follows it, or with its closing bracket missing |
| JsonDocs.EscapesMean | src/runtime/manifest_parser.c:94-113 | n, r and t after a backslash are line feed, carriage return and tab; any other character is itself |
| JsonDocs.ZeroEnds | src/runtime/manifest_parser.c:81-126 | a zero character ends the text a buffer holds |
| JsonDocs.OpenArrayReads | src/runtime/manifest_parser.c:241-282 | a capability array the text ends in counts as closed |
| JsonDocs.OpenStringRefused | src/runtime/manifest_parser.c:81-126 | a string the text ends in is refused |
| JsonDocs.BadStartRefused | src/runtime/manifest_parser.c:165-190 | a text that does not start with a bracket after white space is refused |
| JsonDocs.JunkRefused | src/runtime/manifest_parser.c:190-208 | after any members, anything but a quote where a key should begin is refused |
| JsonDocs.NoColonRefused | src/runtime/manifest_parser.c:208-216 | so is a key without a colon |
| JsonDocs.WrongValueRefused | src/runtime/manifest_parser.c:217-282 | and a known key with a value of another kind |
| JsonDocs.AcceptedIff | src/runtime/manifest_parser.c:165-490 | the parser accepts a printed document if and only if every key and string fits its buffer, with EINVAL otherwise |
| JsonDocs.UnknownIgnored | src/runtime/manifest_parser.c:453-481 | the parser gives the same result with and without an unknown member, inserted anywhere, whose key fits |
| JsonDocs.LongKeyRefused | src/runtime/manifest_parser.c:202-208 | the parser refuses a document with an unknown key too long for its buffer, wherever it stands |
| JsonDocs.ManifestRoundTrip | src/runtime/manifest_parser.c:165-490 | name, version, quota and capability mask come back if the strings fit, EINVAL otherwise |
| Wasm.LebReads | src/runtime/manifest_parser.c:45-64 | any LEB128 encoding of at most five bytes, padded or not, is read as its value modulo 2^32 |
| Wasm.LebRoundTrip | src/runtime/manifest_parser.c:45-64 | every 32-bit number is read back from its encoding |
| Wasm.LebRefusedIff | src/runtime/manifest_parser.c:45-64 | nothing is read if and only if none of the bytes there, five at most, ends an encoding |
| Wasm.ReadLeb128 | src/runtime/manifest_parser.c:45-64 | the loop is the abstract reader |
| Wasm.ParseWasmBinary | src/runtime/manifest_parser.c:498-553 | the section loop is the abstract walk, on arbitrary bytes |
| Wasm.WalkFindsFirst | src/runtime/manifest_parser.c:498-553 | over well-formed and broken sections the JSON parser gets exactly the first manifest section's content; without one the answer is ENOENT, or EINVAL if a section is cut short |
| Wasm.SectionNameIs | src/runtime/manifest_parser.c:40-40 | the section is named .akira.manifest |
| Manifests.BinaryReads | src/runtime/manifest_parser.c:498-553 | a binary whose manifest section holds the bytes of a printed document is parsed to that document's meaning |
| Calendar.BeforeYearClosed | src/shell/shell_date.c:97-111 | the year loop equals the closed form with the leap-day count |
| Calendar.BeforeMonthClosed | src/shell/shell_date.c:94-111 | the month loop equals its closed form |
| Calendar.EpochClosed | src/shell/shell_date.c:97-127 | the epoch of every accepted date in closed form, by the Gregorian rules alone |
| Calendar.EpochRoundTrip | src/shell/shell_date.c:97-159 | every epoch is shown as a date that reads back as itself, and that date exists if and only if the epoch is not before 1970 |
| Calendar.BeforeStart | src/shell/shell_date.c:130-159 | an epoch before 1970 is shown in January 1970 on a day before the first |
| Calendar.DateRoundTripIff | src/shell/shell_date.c:114-127 | an accepted date is shown as itself if and only if its month has that day |
| Calendar.LateDayShown | src/shell/shell_date.c:97-159 | a day past the end of its month is shown as the day that many into the next month |
| Calendar.ShownOnThirdOfMarch | src/shell/shell_date.c:97-159 | 31 February 1970 is accepted and shown as 3 March |
| Calendar.DaysSinceEpoch | src/shell/shell_date.c:97-111 | the two loops compute the day number |
| Calendar.ParseDatetime | src/shell/shell_date.c:114-127 | the epoch of the fields, or -1 exactly for those out of range |
| Calendar.FormatDatetime | src/shell/shell_date.c:130-159 | the decomposition loops compute the date, negative epochs included |
| BufPool.NextBalanced | src/connectivity/buf_pool.c:22-55 | every step of any thread keeps semaphore plus tokens equal to the free buffers |
| BufPool.RunBalanced | src/connectivity/buf_pool.c:22-55 | over any interleaving a thread with a token finds a buffer, whoever frees |
| BufPool.FreeExclusiveIff | src/connectivity/buf_pool.c:44-55 | a free keeps buffers exclusive if and only if it comes from the holder or the buffer is free |
| BufPool.RunExclusive | src/connectivity/buf_pool.c:22-55 | if only holders free, no two threads share a buffer |
| BufPool.ForeignFreeShares | src/connectivity/buf_pool.c:22-55 | a run in which a free by another thread ends with two threads holding one buffer |
| BufPool.Buffers.Alloc | src/connectivity/buf_pool.c:22-42 | the first free buffer, marked and emptied, or no change at all |
| BufPool.Buffers.ScanPool | src/connectivity/buf_pool.c:29-41 | the scan takes the first free buffer and empties it |
| BufPool.Buffers.Release | src/connectivity/buf_pool.c:44-55 | the critical section of an unref: flag, length and semaphore |

## Left out

- DeflateSound.InflateIff: for streams whose declared codes are prefix codes; the code does not check that
  they are, and what it makes of others is only said by Inflaters.Inflater.InflateRaw. A last repeat of
  code lengths that runs over their number is cut, as in the code, and counts as written.
- Package.UnpackPackage: initialisation, the caller's name buffer and failing allocations are not modelled; a
  package of two or three bytes, too short for the size field, is refused.
- Allocation failures in the inflater and in the messaging code: buffers are granted.
- gzip's CRC32 and the comparison of the final size with the announced one: the code does not check them.
- Tar names that fill their field without a terminator: the C code reads on into the rest of the
  header block and beyond; in the model a name also ends at the end of the archive.
- Package.AkpkgInflate: the output buffer is an array; the result is converted to a signed 32-bit
  number as in the code.
- Tar.TarOctal: `size_t` is 32 bits wide, as on the boards.
- Wasm.ParseWasmBinary: sums of offsets and section sizes do not wrap, as with a 64-bit `size_t`; the
  AOT container and the choice by magic number are not modelled.
- Json.ParseJson: the value of a `network_policy` key is not modelled; the model stops there with
  ENOTSUP, and no theorem speaks of documents with that key. On an error the partly filled manifest
  is not described. The capability table is a parameter. `\b`, `\f` and `\u` escapes are not decoded by
  the code; the printed manifests of the round trip do not use them.
- Settings.Store.Set: a set of a new key requires a free record id below 65535, where the 16-bit counter
  would wrap; the partition of eight 4096-byte sectors is full long before. Flash write errors, such as a
  full partition, and failing allocations are not modelled.
- Settings.RunHolds, Settings.RunFetched: over runs whose sets have that room.
- Settings: encryption and the SD card branch; an encrypted set or get answers ENOTSUP, as in builds
  without encryption. The work queue between the API and the store is not modelled.
- PowerCuts.PowerCut: each record write is atomic; erasing the whole partition is not interrupted. It
  starts from a store with distinct keys, and says when it ends in one.
- AppSlots.Possible: a module the WebAssembly runtime returns is not one still loaded, and an instance is
  not one alive. Load, start, start timeout, exit, stop, destroy and lookup are one atomic step each; a
  start timeout that hits a thread between its instantiation and its answer, and other finer races, the
  sandbox and the performance counters are not modelled.
- Runtimes.Runtime.LoadWasm: the slot's capability mask, memory quota and name are not modelled; what
  integrity check, allocation and loading come to is a parameter.
- InstanceMaps.StaleEntryReturns: a lookup of a pointer that is no longer live may still return a slot;
  RemovedReturnsIff says when. Only live pointers are promised theirs.
- `module_cache_lookup` and the cache statistics: the runtime never calls the lookup.
- Ipc.Broker.Receive: a blocking receive on an empty queue is its timeout; one that a publish ends is that
  publish and then a receive. The use of the queue pointer outside the lock is not modelled.
- Raster: coordinates do not overflow 32 bits; rectangles, text and filled circles would only add easy
  members.
- Calendar: fields rather than text; the scanning and printing of digits are library calls.
- BufPool: a take that has to wait is not enabled until the semaphore is up; in BufPool.Buffers.Alloc it
  is its timeout.
- Base64, AES-GCM, delta updates, sockets, Bluetooth, sensors, shell commands and logging.
