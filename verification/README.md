# shim in Dafny

A model of the decision and data-structure core of shim, the first-stage UEFI boot loader: what
happens between the arrival of bytes and the start of an image. The project models how PE images are
checked, digested, laid out and relocated, how allow and deny lists and certificate tables decide whether
an image may run, how the section cache lets a nested image skip the allow list, how signature databases
are parsed, edited in place, written back and split into variables, how SBAT metadata is parsed, packed,
compared and kept moving forward, and the codecs, list primitives and bit tricks around all this.

Every operation that the C code performs step by step is a method over arrays, fields and loops, proved
against a specification function; the theorems are lemmas about those functions. `dafny verify
dfyconfig.toml` checks all of it.

## How the code is represented

* Pointers are offsets into byte sequences or arrays. `Bytes.Memory` is a buffer followed by unknown bytes, so a
  read past the end of a buffer gives an arbitrary value instead of being ruled out.
* 16-, 32- and 64-bit arithmetic is written out modulo its range wherever a wrap could matter (`generate_hash`,
  `get_section_vma`, `handle_image`, `relocate_coff`, database walks, device paths, checksums, generations).
* SHA-256, SHA-1, Authenticode verification, the X.509 key-usage test, `atoi`, firmware size reports and the
  outcomes of store calls and allocations are parameters.
* The machine is a little-endian 64-bit one, images are 64-bit, and the options that change structure
  layouts are fixed to that.

## What is proved

* `Boot`: in every secure-mode run of the loader protocol, every image that is admitted has its hash on no deny list,
  passes the revocation level, and is vouched for by its own hash or signature, or has the size and digest of a live
  cached section of an image that is.
* `SectionCache`, `LoaderProtocol`, `LoaderRuns`: the state machine of load, start, exit and unload behind that, for fresh
  handles, by events and by calls; an image admitted through the cache contributes nothing itself, and one that ends
  leaves nothing to admit others by.
* `Csv`, `SbatSection`, `SbatText`: the in-place tokenizer, on data with NULs anywhere, yields one row per maximal run of
  bytes other than CR and LF, with the first fields of that line, and changes only delimiters; the packed string table
  is filled exactly; an image passes SBAT if and only if no component is below the first level entry of its name.
* `Pe`, `PeFile`, `Authenticode`, `Digested`, `ImageLoad`, `Relocate`, `FixupTable`, `LoadedImage`: which headers and
  images are accepted; no copy leaves the file or the image; the digested stream of a tiled file is the file in order
  minus three fields; when the allocation covers the image; what every byte of the loaded image is; relocation moves
  every field by its type, in any block order.
* `Databases`, `Verify`, `Policy`: the verdict on an image is exactly "its hash is on no deny list, and it is trusted
  through its parent, its hash or some signature, and SBAT agrees", in terms of the entries of the lists, and does not
  depend on the order of the signatures.
* `MokList`, `MokDelete`, `MokPurge`, `MokMirror`: parsing inverts writing back; deletion is an order-preserving filter exactly
  under a stated condition, and a whole request from parsing to writing back leaves what it does not list; splitting a
  database accounts for every byte, and when both passes together lose nothing.
* `SbatLevel`, `SbatUpdates`: exactly when the stored revocation level goes up and when it can go down, per call and over
  runs.
* `LoadOption`, `Ip6`: writer and reader of load options, and the IPv6 text parser against RFC 4291.
* `Blowfish`, `PostProcess`, `RingList`: the safety bit of the key schedule, the end-around-carry checksum and idempotent
  post-processing, and the circular list as a sequence.

## Where the code departs from the obvious

* Flushing a handle from the section cache keeps only the entries before the first one of that handle
  (`SectionCache.FlushLosesLaterImage`); it equals "drop that handle's entries" if and only if they stand at the end
  (`SectionCache.FlushDropsOnlyOwnIff`).
* A load that fails because the cache runs out of room leaves the sections it has cached until then
  (`LoaderRuns.PartialCacheStays`); other failures and the end of an image leave none (`LoaderRuns.FailureStoresNothing`,
  `LoaderRuns.EndLeavesNothing`).
* `match_hash` compares from the first entry whatever its start index is, so a second copy of a hash can stay
  (`MokDelete.SecondCopyStays`); deletion is a filter if and only if all occurrences but the last lead the node
  (`MokDelete.DeleteIsFilterIff`). Bytes after the last whole entry can make a purged node unreadable
  (`MokDelete.LeftoverRejected`; exactly when: `MokDelete.PurgedParsesIff`).
* Neither `count_keys` nor `build_mok_list` looks at the size of a list's own header, so the data of two nodes can overlap,
  and deleting a hash can change another node (`MokPurge.OverlapCorrupts`); hash nodes are apart from all others if and
  only if the headers say so (`MokPurge.BuiltLaidIff`).
* include/str.h:126-128 says that every CR, LF and comma becomes NUL. The code overwrites only the delimiter right
  after each line and the first commas of each line, one per requested column (`Csv.SecondLineFeedStays`, `Csv.PromiseIff`).
* A NUL ends the parser's text, unless two CR or LF stand before it, or one that is all there is; then the parser goes on
  behind it (`Csv.RowBehindNul`, `Csv.Turn`).
* The size of an image's allocation is kept in 32 bits (`ImageLoad.AllocationWraps`, `ImageLoad.CoveredIff`).
* `relocate_coff` checks the base of each block, not its fields, which can lie up to 4102 bytes behind the image
  (`Relocate.FieldBehindImage`, `Relocate.BlocksInside`); a block's fields all lie inside if and only if its base is 4103
  bytes before the end (`Relocate.FieldsInsideIff`). Its signed size rejects large images (`Relocate.HugeImage`).
* A database walk that reaches a list of size zero does not get past it, and one that looks for a hash divides by the
  signature size (`Databases.EmptyListHolds`, `Databases.CertWalksIff`, `Databases.HashWalksIff`).
* The second mirror pass skips one run on the assumption that the first pass stored it; with its longer name it can
  skip another list's (`MokMirror.LongerNameLoses`, `MokMirror.NothingLostIff`).
* A load option is rejected on reading if its title has a character above 0xff, or if title and arguments are both
  empty (`LoadOption.ReadsBack`). A path node that reaches past the option does not stop the walk, whose 32-bit counter
  can even wrap (`LoadOption.NoWayBack`); it may never end (`LoadOption.EndlessIff`).
* `::` for a single group at either end of an IPv6 address makes eight colons and reads as all zeros
  (`Ip6.SingleGroupLost`, `Ip6.CompressedFormReads`).
* A certificate-table entry is read only if twelve bytes of it are in the file, so an empty last entry at the very
  end of a file makes the table malformed (`Verify.EmptyEntryLast`, `Verify.TableVerdictIs`).
* A level write that fails after the delete forgets the level (`SbatLevel.LostWriteForgets`), and a failed read lets an older
  level overwrite it (`SbatLevel.FailedReadLowers`); nothing else does (`SbatLevel.KeptIff`, `SbatLevel.NeverFallsIff`).
* A failed NX validation of post-process-pe.c leaves the file with its flag set and nothing else done (`PostProcess.HandleOne`).
* Unloading an image frees its record but leaves the protocol on the handle; the model marks such a record and does not use it again.

## Model

| member | source | states |
|---|---|---|
| `SectionCache.Cache.CacheSection` | pe.c:80-112 | a section is appended under its handle; a failed allocation or digest leaves the contents alone |
| `SectionCache.Cache.ValidateCachedSection` | pe.c:114-151 | success if and only if an entry of that handle has this size and digest; out of resources if and only if digesting fails and would have been needed |
| `SectionCache.Cache.FlushCachedSections` | pe.c:153-171 | the in-place upward shift leaves exactly the entries before the first one of the handle |
| `SectionCache.FlushDropsOnlyOwnIff` | pe.c:153-171 | what survives a flush is "all entries of other handles" if and only if nothing else follows the handle's entries |
| `SectionCache.FlushLosesLaterImage` | pe.c:153-171 | two images, the first flushed: the second one's section is lost as well |
| `LoaderProtocol.Loader.CacheAll` | pe.c:935-944 | the sections of an image are cached in order until an allocation fails |
| `LoaderProtocol.Loader.RunHandleImage` | pe.c:638-974 | deciding, caching, the single entry point and the flush on failure, step by step as in the state machine; `Boot.HandleImage` gives it the outcomes for a file's bytes, in secure mode and outside it |
| `LoaderProtocol.Loader.RunLoadImage` | loader-proto.c:208-349 | load consults the cache for a supplied buffer, falls back to the path, creates the record, runs `handle_image` and undoes the record on failure |
| `LoaderProtocol.Loader.RunEndImage` | loader-proto.c:383-404 | the end of a started image, by return or by exit, flushes its sections and drops its record, which `LoaderRuns.EndLeavesNothing` states by contents |
| `LoaderProtocol.Loader.RunUnloadImage` | loader-proto.c:406-429 | unload flushes and frees the record |
| `LoaderProtocol.Loader.FlushSections` | pe.c:153-171 | the flush as one step of the state machine |
| `LoaderProtocol.Loader.Perform` | loader-proto.c:208-462 | boot, load, start, exit and unload on the object are the steps of the state machine |
| `LoaderProtocol.Loader.PerformAll` | loader-proto.c:208-462 | any sequence of enabled calls on the object is a run of the state machine, and in secure mode its log keeps the claim on all admissions |
| `LoaderProtocol.TrustChainGrows` | loader-proto.c:226-236 | one more event keeps the claim on all admissions, given a verification or a justification for it |
| `LoaderProtocol.HandleImageKeeps` | pe.c:638-974 | secure-mode `handle_image` keeps the invariant, verified or through the cache |
| `LoaderProtocol.StepKeeps` | loader-proto.c:208-462 | every enabled step of load, boot, start, end and unload keeps the invariant |
| `LoaderProtocol.RunKeeps` | loader-proto.c:208-462 | so does every run |
| `LoaderProtocol.TrustChainHolds` | loader-proto.c:226-236 | in every secure-mode run, each admitted image follows a full verification of its handle, or came through the cache, matches a live section cached by its fully verified parent, and adds no cache entry |
| `LoaderProtocol.OneLevelDeep` | pe.c:935-944 | the parent of an image admitted through the cache was not itself admitted through the cache |
| `LoaderProtocol.StartsOnce` | loader-proto.c:351-404 | once started, an image cannot be started again in any run that does not end it |
| `LoaderRuns.StartIff` | loader-proto.c:351-374 | an image starts if and only if it has a record that is not started, and then only that mark changes |
| `LoaderProtocol.HandleImageAccepts` | pe.c:638-974 | `handle_image` admits and caches only what the judge of its bytes accepts, under the size and digest of those bytes |
| `LoaderProtocol.RunAccepts` | loader-proto.c:208-462 | in every secure-mode run every admitted image was accepted and carries its own size and digest, and every cached section is one of an image accepted without a verified parent |
| `LoaderProtocol.CacheAdmissions` | loader-proto.c:226-236 | an image admitted through the cache has the size and digest of a section that its parent, accepted on its own, cached and that was not flushed since |
| `LoaderRuns.LegalIsRun` | loader-proto.c:208-462 | sequences of calls that are each enabled when made are exactly the secure-mode runs of the state machine |
| `LoaderRuns.EndLeavesNothing` | loader-proto.c:383-429 | after an image exits or is unloaded no cache entry is left under its handle, no load with it as the parent is a cache hit, its record is gone or freed, and no other record comes or goes |
| `LoaderRuns.CallStores` | loader-proto.c:208-429 | what is in the cache after a call was there before or was stored by the call, which verified its image in full; nothing is left of an image that the call ended |
| `LoaderRuns.EntriesLive` | pe.c:80-171 | every cache entry was stored by a call that verified its image in full, and no call since has ended that image |
| `LoaderRuns.LoadStepIff` | loader-proto.c:208-349 | a load succeeds in secure mode if and only if it names a readable buffer or path, the record can be made, the image is laid out with one entry point, and it is verified in full with room for its sections, or under its parent's word if size and digest are in the cache |
| `LoaderRuns.LoadRecords` | loader-proto.c:266-349 | a load that succeeds adds one record, not started, with its parent; one that fails leaves the records as they were |
| `LoaderRuns.BootStepIff` | pe.c:638-974 | the second stage boots in secure mode if and only if it is verified in full, laid out with one entry point, and its sections find room |
| `LoaderRuns.LoadMeans` | loader-proto.c:208-349 | a load that succeeds in any secure-mode run was verified in full, or its size and digest are those of a section that its parent, verified in full by an earlier call, stored, and no call in between ended the parent |
| `LoaderRuns.LoadedIsCached` | pe.c:935-944 | an image that is loaded on its own has every section in the cache |
| `LoaderRuns.SectionLoads` | loader-proto.c:226-236 | so a buffer with size and digest of one of its sections is a cache hit |
| `LoaderRuns.FailureStoresNothing` | pe.c:935-961 | a load that fails adds nothing to the cache, unless it fails for lack of room there |
| `LoaderRuns.PartialCacheStays` | pe.c:935-944 | in that case the sections that found room stay, without a record |
| `Csv.LinesAreRuns` | csv.c:70-101 | the lines are exactly the maximal runs of bytes other than CR and LF, from left to right |
| `Csv.FieldBounds` | csv.c:8-35 | the fields of a line cover it from end to end, one comma apart, and field number c has c commas before it |
| `Csv.Strnchrnul` | include/str.h:14-30 | the first occurrence of the byte or of NUL, and the last position if there is neither |
| `Csv.Strntoken` | include/str.h:63-101 | one token: the delimiter becomes NUL, and the result says whether the token is valid |
| `Csv.ParseCsvLine` | csv.c:8-35 | the columns are the first n comma-separated fields, none for a line without a comma, and exactly the first n commas are overwritten |
| `Csv.ParseOne` | csv.c:70-129 | one turn of the parser: the next line, its columns, whether a NUL ended it, and the edit brought up to the next line |
| `Csv.ParseCsvData` | csv.c:50-135 | for any data that ends in NUL: one row per line after a byte order mark, the exact status for every allocation failure, and every byte of the result; every changed byte was a delimiter and is NUL now |
| `Csv.RowPerLine` | csv.c:50-135 | row r of a stretch of text holds the column starts of its line r |
| `Csv.RowsReadBack` | csv.c:50-135 | after a parse, column c of row r is a NUL-terminated string without NULs, equal to that field of the original line |
| `Csv.Turn` | csv.c:69-129 | one turn of the loop over data with NULs anywhere: behind a NUL the parser goes on only if two CR or LF, or a single one alone, stand before it |
| `Csv.RowBehindNul` | csv.c:69-129 | text, two line feeds and a NUL: the line behind the NUL is found as well |
| `Csv.PaddedIsPlain` | verify.c:690-700 | with nothing but NULs behind the first NUL, the lines are those before it, and nothing behind it changes |
| `Csv.FewCommasIff` | csv.c:15-32 | every comma is among the first n of its line if and only if no line has more than n commas |
| `Csv.PromiseIff` | include/str.h:126-128 | every CR, LF and comma is NUL after a parse if and only if no CR or LF starts the text or follows another and no line has more than n commas |
| `Csv.SecondLineFeedStays` | include/str.h:126-128 | two adjacent line feeds: the second one stays |
| `Pe.NoWrap` | pe-relocate.c:158-210 | the `end < base` test rules out a 32-bit wrap: a section that passes it with its base inside the image lies inside the image |
| `Pe.CheckTable` | pe-relocate.c:505-533 | the divisions accept a section table if and only if it lies inside file and headers, with one more header inside the image |
| `Pe.ReadHeader` | pe-relocate.c:375-639 | which headers are accepted, which error the others get, and that the result is the header in the file |
| `PeFile.HeaderReads` | pe-relocate.c:375-639 | every field of an encoded header is read back, with the defaults for alignments of zero, and checksum and security directory stand where the digest skips them |
| `PeFile.SectionsRead` | pe-relocate.c:590-600 | the section headers encoded behind the optional header are read back in order |
| `PeFile.FileAccepted` | pe-relocate.c:375-639 | an encoded file's header is accepted if and only if machine, magic, flags, directories, sizes and the place of the section table are those of a loadable 64-bit image |
| `PeFile.DirectoryInside` | pe-relocate.c:623-634 | the security directory is in order if and only if it starts in the file, or is empty at its end |
| `Authenticode.InsertInPlace` | pe.c:350-356 | the insertion step of the header table, in place |
| `Authenticode.SortIsStable` | pe.c:325-358 | the header table is the sorted permutation of the sections, and sections of one position keep their order |
| `Authenticode.ValidateAndSort` | pe.c:321-358 | accepts if and only if every section passes the virtual-address check and the 32-bit running sum never exceeds the file, without wrapping |
| `Authenticode.HashSections` | pe.c:360-392 | digests the raw data of the sorted sections if and only if all of it lies in the file, and the running sum is exact |
| `Authenticode.HashTail` | pe.c:394-451 | the rest of the file up to the certificate table, or padded to eight, with the exact error cases |
| `Authenticode.GenerateHash` | pe.c:177-474 | success if and only if the image is acceptable, and then the digested stream is headers, sorted sections and tail |
| `Digested.AcceptedIff` | pe.c:190-415 | an image can be digested if and only if, in plain arithmetic, it is a DOS file, its headers reach behind the directory entry, headers and raw data are no more than the file, every section is placed in image, file and behind the headers, and a certificate table ends the file |
| `Authenticode.SortedUnique` | pe.c:350-356 | a strictly increasing order is the only sorted order of its members |
| `Authenticode.EmptySectionsSilent` | pe.c:360-392 | sections without raw data add nothing to stream or sum |
| `Authenticode.TileBytes` | pe.c:360-392 | sections that tile a range digest to exactly that range |
| `Authenticode.TiledFileIsHashedWhole` | pe.c:218-451 | if the non-empty sections tile the file from its headers on and any certificate table ends it, the image is accepted and the stream is the file in order, each byte once, minus CheckSum, directory entry and certificate table, padded only when an unsigned file goes on after its last section |
| `ImageLoad.CopiesStayInside` | pe.c:723-859 | once header and digest accept, every header and section copy reads inside the file and writes inside the image |
| `ImageLoad.CheckSection` | pe.c:756-847 | one considered section passes exactly the checks of the loader |
| `LoadedImage.LoadableIff` | pe.c:754-847 | a section table loads if and only if each section that is looked at does, in plain arithmetic: it lies in the image unless it is discardable and starts behind it, its data stands behind the headers, it is no writable code if that is forbidden, relocations match their directory; and no two sections hold relocations |
| `LoadedImage.OneEntryIff` | pe.c:790-793 | the count of entry points is one if and only if exactly one section holds the entry point before its last byte |
| `ImageLoad.FillSection` | pe.c:840-858 | raw data, then zeros, in place, and nothing else; by bytes in `LoadedImage.SectionByte` |
| `ImageLoad.LoadSections` | pe.c:723-859 | the image is the headers and every copied section placed in order, if and only if all checks pass, with the entry-point count and the relocation section |
| `ImageLoad.SectionReadsBack` | pe.c:754-859 | a section that no later one overlaps stands in memory as its zero-extended raw data |
| `ImageLoad.RestUntouched` | pe.c:754-859 | bytes outside every copied section keep what was there |
| `ImageLoad.CoveredIff` | pe.c:701-716 | the pages allocated cover the image at every page address if and only if the rounded sum of image size and alignment is below 2^32 |
| `LoadedImage.BufferAligned` | pe.c:716-716 | for an alignment that is a power of two the buffer is the next aligned address |
| `ImageLoad.AllocationWraps` | pe.c:705-707 | an image of two pages with alignment 0xfffff000 gets one page |
| `ImageLoad.LoadImage` | pe.c:686-878 | page count, aligned buffer, status for every layout and relocation outcome, and the memory that results |
| `ImageLoad.LoadedReadsBack` | pe.c:754-878 | a section that no later one overlaps and no fixup touches stands in memory as its zero-extended raw data |
| `LoadedImage.SectionByte` | pe.c:754-858 | a byte of a readable section that is not discardable, held by no later one and touched by no fixup, is the file's byte at the same distance from its raw data, or zero if the section is marked uninitialized or the raw data ends before it |
| `LoadedImage.OtherByte` | pe.c:723-858 | a byte in no such section is the file's in the headers and untouched behind them |
| `LoadedImage.TableApplied` | pe.c:866-878 | with a well-formed relocation table every field is moved by the distance from the preferred address, and every other byte is as placed |
| `LoadedImage.PointerMoved` | pe-relocate.c:84-143 | an eight-byte pointer written for the preferred address points to the same place of the loaded image |
| `ImageLoad.LoadFile` | pe.c:605-977 | success if and only if header, digest, allocation, layout, relocation and the single entry point succeed, and then memory is the placed and relocated image |
| `Relocate.AddInPlace` | pe-relocate.c:119-150 | a field of 2, 4 or 8 bytes gets the adjustment added modulo its width |
| `Relocate.RunEntries` | pe-relocate.c:119-150 | the entries of one block, applied in order wherever their fields lie, with unknown types rejected; by types in `FixupTable.TableRelocates` |
| `Relocate.RunBlocks` | pe-relocate.c:93-153 | every accepted block moves the walk forward; memory is the blocks' fixups applied in order |
| `Relocate.RelocateCoff` | pe-relocate.c:33-156 | status and memory of the whole relocation of any image, including directory bounds, the signed size and the empty table |
| `Relocate.BlocksInside` | pe-relocate.c:93-123 | the checks keep every field inside the image or the 4102 bytes behind it |
| `Relocate.FieldsInsideIff` | pe-relocate.c:103-143 | all fields a block may ask for lie inside the image if and only if its base lies at least 4103 bytes before the end |
| `Relocate.FieldBehindImage` | pe-relocate.c:93-143 | a table of one block at the image's last byte is accepted, and its only field lies behind the image |
| `Relocate.HugeImage` | pe-relocate.c:45-91 | an image of two gigabytes or more is relocated only if nothing has to be done |
| `Relocate.LeRoundTrip` | pe-relocate.c:125-143 | little-endian bytes of a value give the value back |
| `Relocate.FieldsAdjusted` | pe-relocate.c:33-156 | for disjoint fixups every field ends as its old value plus the adjustment modulo its width, and no other byte changes |
| `Relocate.UncoveredByte` | pe-relocate.c:119-150 | a byte that no fixup covers stays, also when fixups overlap |
| `Relocate.OrderIrrelevant` | pe-relocate.c:93-153 | disjoint fixups commute |
| `Relocate.TableDecodes` | pe-relocate.c:93-153 | walking an encoded table visits exactly its blocks and entries |
| `FixupTable.TableRelocates` | pe-relocate.c:93-153 | a table whose fields do not overlap is accepted; entries of type 10, 3 and 2 add the adjustment to eight, four and two bytes modulo their range, type 1 adds its bits 16 to 31 to a word, type 0 changes nothing, and no other byte changes |
| `FixupTable.CoffRelocates` | pe-relocate.c:33-156 | the same from the relocation directory on, an adjustment of zero included |
| `FixupTable.EntryAsked` | pe-relocate.c:119-121 | every entry of every block asks for its field |
| `FixupTable.DirectoryOutside` | pe-relocate.c:74-86 | a relocation directory wholly outside the image changes nothing, and one partly outside is refused |
| `Relocate.BlockOrderIrrelevant` | pe-relocate.c:93-153 | two tables with the same blocks in any order relocate alike |
| `SignatureList.ReadHeader` | include/efiauthenticated.h:28-54 | the fields of an encoded list header are read back |
| `MokList.CountKeys` | MokManager.c:139-172 | the number of lists, or zero if one is malformed |
| `MokList.BuildMokList` | MokManager.c:174-235 | the nodes of counted data; the table is never overrun, and a completed build fills it exactly |
| `MokList.EncodedNode` | MokManager.c:1043-1116 | a written node is accepted by both walks if and only if it is parsable, and gives back type and bytes |
| `MokList.RoundTripAt` | MokManager.c:139-235 | parsing an encoding gives back exactly its keys, if and only if all are parsable |
| `MokList.BuiltIsParsable` | MokManager.c:174-235 | every node that was built is parsable |
| `MokList.TruncatedEnds` | MokManager.c:147-192 | a last list that claims more bytes than are left ends both walks without complaint |
| `MokList.PutNode` | MokManager.c:1085-1116 | one node's header, owner and data, and no other byte |
| `MokList.WriteBack` | MokManager.c:1043-1131 | the second pass writes exactly the bytes the first one counted, the encoding of the live nodes |
| `MokList.WriteBackRoundTrips` | MokManager.c:1043-1131 | data that was counted and built, with any nodes deleted and written back, parses to exactly the survivors in order |
| `MokDelete.MatchHash` | MokManager.c:1153-1167 | the index counted from the start, for a comparison from the first entry |
| `MokDelete.MemMove` | MokManager.c:1169-1178 | an overlapping move of any length copies the old bytes and changes no others |
| `MokDelete.RemoveEntry` | MokManager.c:1180-1221 | the exact bytes after one entry is shifted out |
| `MokDelete.DeleteHashInNode` | MokManager.c:1180-1221 | the deletion loop over one node, as the exact new bytes and size, whatever else the buffer holds |
| `MokDelete.DeleteIsFilterIff` | MokManager.c:1153-1221 | the loop removes exactly the occurrences of the hash if and only if all but the last stand at the head of the node |
| `MokDelete.SecondCopyStays` | MokManager.c:1159-1163 | another entry, then the hash twice: one copy stays |
| `MokDelete.DeleteListIsFilter` | MokManager.c:1223-1245 | if no listed hash occurs twice in a node, deletion leaves exactly the other entries in order |
| `MokDelete.NodeLoopIs` | MokManager.c:1180-1221 | the byte shuffling amounts to the deletion loop on the node's entries, and changes nothing outside the node |
| `MokDelete.PurgedParsesIff` | MokManager.c:1180-1245 | a purged node can be read again if and only if an entry is left or the bytes behind the last entry are more than a signature less a list header |
| `MokDelete.KeptParsesIff` | MokManager.c:1180-1245 | the same in terms of the entries that are kept, when no listed hash occurs twice |
| `MokDelete.LeftoverRejected` | MokManager.c:1180-1245 | a few bytes after the only entry: deleting it leaves data that is rejected when read again |
| `MokPurge.DeleteHashInList` | MokManager.c:1180-1221 | the pass of one hash over all nodes, overlapping or not, as the exact new state |
| `MokPurge.DeleteHashList` | MokManager.c:1223-1245 | every hash of the delete node in turn over all nodes, as the exact new state |
| `MokPurge.DeleteCert` | MokManager.c:1133-1151 | exactly the certificate nodes equal to the key lose their data |
| `MokPurge.RunDeleteKeys` | MokManager.c:1352-1370 | the delete request is worked off node by node, as the exact new state |
| `MokPurge.HashPassIs` | MokManager.c:1180-1221 | where hash nodes are apart from all others: each node of the type loses the hash, every other one keeps its bytes, and they stay apart |
| `MokPurge.DeleteKeysIs` | MokManager.c:1352-1370 | likewise: after the whole request each node holds its old data purged of every listed key |
| `MokPurge.KeysArePurged` | MokManager.c:1352-1370 | the live nodes afterwards are the purged keys in order |
| `MokPurge.BuiltLaidIff` | MokManager.c:174-235 | the hash nodes that were built are apart from all others if and only if the extents given by the list headers are |
| `MokPurge.BuiltInside` | MokManager.c:190-226 | every list that was built has its headers, an owner with a byte behind it, and the bytes of its node inside the data |
| `MokPurge.ContainedIsApart` | MokManager.c:200-226 | lists whose data stays inside them are apart |
| `MokPurge.OverlapCorrupts` | MokManager.c:1180-1221 | a hash list with a header size of 100 and a certificate list behind it: deleting a hash changes the certificate |
| `MokPurge.DeleteAndReadBack` | MokManager.c:1247-1390 | built, deleted, written back and read again, data whose hash lists are apart from all others gives exactly the purged keys, if and only if each of them is parsable |
| `MokPurge.PurgeAllIsMany` | MokManager.c:1352-1370 | a whole request deletes from a hash node what one list of all its hashes of that type would |
| `MokPurge.RequestIsFilter` | MokManager.c:1352-1370 | if no key holds a listed hash twice, a whole request leaves of every key exactly the entries that no delete node of its type lists, in order, and of the certificates those that are not listed |
| `MokMirror.DatabaseIsChain` | mok.c:735-839 | a well-formed database is a chain of complete lists |
| `MokMirror.FillEsl` | lib/variables.c:19-56 | a new list of the given signatures, if and only if its size fits in 32 bits |
| `MokMirror.MirrorOneEsl` | mok.c:645-689 | the contents of the variable made from one run, or none if their size needs more than 32 bits |
| `MokMirror.HowManyFit` | mok.c:798-803 | the chosen count fills the room or the list, leaves whole signatures, and is zero only where not one signature fits |
| `MokMirror.Take` | mok.c:790-838 | one turn of the loop: a run is created, or skipped if it is the second pass's first, or the rest of the list is passed over because nothing fits |
| `MokMirror.MirrorPass` | mok.c:735-839 | a pass over any bytes ends, and with working store calls accounts for every byte up to the end of the data: list headers, created runs, the skipped first run, stretches of which nothing fits, and a tail below 65 bytes, at a list without sizes, or after the only run |
| `MokMirror.EveryByteOnce` | mok.c:735-839 | the segments of a pass cover the database once and in order |
| `MokMirror.SegmentsApart` | mok.c:735-839 | later segments start where earlier ones have ended |
| `MokMirror.VariableFits` | mok.c:790-838 | every variable is made from one run of one list and fits the size just reported with its name and header counted |
| `MokMirror.CompleteLists` | mok.c:735-839 | in a database of complete lists every run stays in its list and is as large as room and list allow, and a list is passed over only if not one signature fits |
| `MokMirror.NothingLostIff` | mok.c:771-822 | the run that the second pass skips stands in the first pass's variable if and only if it skips none or the first pass's first run reaches over it; for a list not smaller than its header that means the same place and room for no more of it |
| `MokMirror.LongerNameLoses` | mok.c:771-822 | a signature that fits under the plain name and not under the numbered one: the first run of the next list is lost |
| `SbatLevel.CompareDigits` | lib/string.c:94-111 | on digits of one length `strncmp` is numeric comparison |
| `SbatLevel.LengthFirstIsNumeric` | sbat.c:378-413 | comparing lengths first is numeric order on canonical decimals |
| `SbatLevel.NthSbatField` | sbat.c:365-376 | the start of the n-th comma-separated field |
| `SbatLevel.TextFields` | include/sbat_var_defs.h:14-18 | version and datestamp of a well-formed level are found where they were put |
| `SbatLevel.PreserveSbat` | sbat.c:378-413 | the decision to keep the stored level, as computed by field widths and byte comparison |
| `SbatLevel.PreservedIff` | sbat.c:378-413 | a well-formed stored level is kept if and only if its version is numerically greater or its datestamp is not smaller |
| `SbatLevel.Choose` | sbat.c:492-531 | in secure mode the candidate is one of the two shipped levels and there is no reset |
| `SbatLevel.SbatVariables.SetSbatUefiVariable` | sbat.c:468-615 | policy, level variable and status after a call, for every combination of failing store calls; what it installs in `SbatUpdates.UpdateIs` |
| `SbatLevel.StepRises` | sbat.c:468-615 | an overwrite of a valid level strictly raises the datestamp and does not lower the version |
| `SbatLevel.LevelOnlyRises` | sbat.c:468-615 | in every secure-mode run with well-formed levels and working store calls, the stored datestamp and version never decrease |
| `SbatLevel.FirstLevel` | sbat.c:586-615 | a clean call leaves a well-formed level where there was none |
| `SbatLevel.LostWriteForgets` | sbat.c:573-593 | a write that fails after the delete loses the level, and the next call may store an older one |
| `SbatLevel.FailedReadLowers` | sbat.c:536-615 | a read that fails on its own lets one call overwrite the level with an older one |
| `SbatLevel.LevelInText` | include/sbat_var_defs.h:14-18 | a level is recovered from its text |
| `SbatLevel.KeptIff` | sbat.c:468-615 | a secure-mode call leaves a level not below the stored one if and only if it neither deletes it for a newer one it then fails to write, nor overwrites it unread with an older one |
| `SbatLevel.NeverFallsIff` | sbat.c:468-615 | over a secure-mode run with any failing store calls the level never falls if and only if no call does either |
| `SbatLevel.DecimalValue` | sbat.c:378-413 | the value of a number's decimal notation is the number |
| `SbatUpdates.UpdateIs` | sbat.c:468-615 | on a working store the offered level is installed if and only if it is later in date and not lower in version than the stored one, or a reset is due; otherwise the stored one stays |
| `SbatUpdates.FirstIs` | sbat.c:492-593 | without a stored level the one that the policy names is installed: the latest under policy 1, the automatic one otherwise, and outside Secure Boot the first one unless policy 2 asks for the automatic one |
| `SbatUpdates.UnacceptableStays` | sbat.c:551-571 | a level that does not parse or would revoke shim is not installed over another |
| `SbatUpdates.PolicyOnce` | sbat.c:482-490 | the policy variable is read once per boot and then deleted |
| `SbatUpdates.CorruptReplaced` | sbat.c:386-393 | a stored level with other attributes, too short, or without the signature is replaced by whatever is offered |
| `SbatUpdates.LastIsNewest` | sbat.c:468-615 | over a secure-mode run on a working store the last level is the stored one or one that was offered, not below the stored one, and no offered one is newer |
| `SbatUpdates.BeforeIsRun` | sbat.c:468-615 | the stores before each call of a sequence are those of a run of the state machine |
| `SbatSection.CountRows` | sbat.c:48-73 | accepts if and only if every row has six non-empty columns, and counts entries and strings exactly |
| `SbatSection.PackRows` | sbat.c:88-115 | the second pass writes all strings one after the other behind the entries and fills exactly the counted bytes |
| `SbatSection.ParseSbatSection` | sbat.c:18-122 | for any section that ends in NUL, the status for every failure, and the packed block and entry offsets of its rows |
| `SbatSection.TableStrings` | sbat.c:88-115 | every field of every row stands at its offset with its NUL, without gap or overlap |
| `SbatSection.VerifySingleEntry` | sbat.c:133-158 | a same-named entry fails exactly if its 16-bit generation is above the image's |
| `SbatSection.VerifySbatHelper` | sbat.c:179-207 | an image is accepted if and only if, for each of its entries, the first same-named level entry has a generation not above its own |
| `SbatSection.RevocationStays` | sbat.c:179-207 | entries added behind a level lift no revocation |
| `SbatSection.VerifySbatSection` | pe.c:476-535 | the verdict on a section's bytes: success without a level, success or a violation without a section, else that its rows are complete and none of its components is revoked; otherwise which allocations fail |
| `SbatText.SectionReads` | sbat.c:18-122 | a section written as lines of comma-separated fields, with or without byte order mark and padding, is read back row by row, cut to six fields |
| `SbatText.RevokesIff` | sbat.c:133-207 | a component is revoked if and only if the first level entry of its name has a higher generation in 16 bits |
| `SbatText.VerdictIs` | pe.c:476-535 | the verdict on a written section: success without a level, an error if a line lacks one of six non-empty fields, a violation if and only if a component is revoked |
| `SbatText.NoSection` | pe.c:490-498 | without a section an image passes only inside the protocol or without a level |
| `Databases.CheckDbHashInRam` | verify.c:193-231 | over any bytes on which the walk ends: found if and only if some list of the type carries the hash in a signature, with sizes in 64 bits |
| `Databases.CheckDbCertInRam` | verify.c:120-165 | over any bytes on which the walk ends: found if and only if some X.509 list starts with an accepted certificate |
| `Databases.DatabaseWalks` | verify.c:193-231 | every list that a walk can reach in a well-formed database can be divided by and stepped over |
| `Databases.WalksEnd` | verify.c:120-231 | then every walk ends, whatever it looks for |
| `Databases.EmptyListHolds` | verify.c:128-161 | a walk that meets a list of size zero stays there for any number of turns |
| `Databases.CertWalksIff` | verify.c:120-165 | the walk for a certificate ends if and only if it finds one or no number of turns brings it to a list of size zero |
| `Databases.HashWalksIff` | verify.c:193-231 | the walk for a hash ends without a division by zero if and only if no list that it reaches before a match has signature size zero, and none without a match has size zero |
| `Databases.HashFoundIff` | verify.c:193-231 | in a well-formed database a hash is found if and only if a list of its type contains it |
| `Databases.CertFoundIff` | verify.c:120-165 | in a well-formed database a certificate is found if and only if it is the first of an X.509 list |
| `Verify.CheckDenylist` | verify.c:259-317 | a security violation if and only if hash or certificate is on a deny list; MokListX is not asked for SHA-1; `Policy.DenyHashIff` and `Policy.DenyCertIff` say so by entries |
| `Verify.Verifier.CheckAllowlist` | verify.c:326-404 | success if and only if hash or certificate is on an allow list, with the method recorded accordingly |
| `Verify.Verifier.VerifyOneSignature` | verify.c:406-501 | a signature passes if and only if nothing denies it and an allow list or a built-in certificate accepts it |
| `Verify.Verifier.WalkTable` | verify.c:574-653 | the walk ends within the directory; malformed tables are errors, and one passing signature is enough |
| `Verify.Verifier.VerifyBufferAuthenticode` | verify.c:503-653 | denied hashes come first, then the parent's word, the hash allow lists and the table; success without a verified parent records a method |
| `Verify.FindSbat` | verify.c:655-712 | the one usable `.sbat` section, or an error for relocations, duplicates and bounds |
| `Verify.ChosenUnique` | verify.c:655-712 | a clean image leaves no choice of SBAT data |
| `Verify.CleanIsTidy` | verify.c:663-705 | in an image that can be digested the bounds on the `.sbat` section hold anyway |
| `Verify.VerifyBufferSbat` | verify.c:655-712 | the SBAT check of an image's bytes, from section table to verdict |
| `Verify.Verifier.VerifyBuffer` | verify.c:714-733 | success if and only if the image is approved and the SBAT check finds room: it can be digested, its hash is on no deny list, parent, hash or some signature vouches for it, and the revocation level accepts the bytes of its only `.sbat` section |
| `Verify.ReadableEnds` | verify.c:714-733 | in databases whose lists can be divided by and stepped over, every walk that a verification makes ends |
| `Verify.TableReads` | verify.c:585-642 | a well-formed table yields its signatures in order, unless an empty last entry ends with the file |
| `Verify.TableVerdictIs` | verify.c:574-653 | the verdict of a well-formed table is that some signature in it passes |
| `Verify.OrderIrrelevant` | verify.c:585-653 | reordering the entries of a well-formed table does not change the verdict |
| `Verify.EmptyEntryLast` | verify.c:596-600 | an empty entry before a passing signature is harmless, and after it at the end of the file makes the table malformed |
| `Verify.HasHashIff` | verify.c:236-257 | a variable holding a well-formed database has a hash if and only if a list contains it |
| `Verify.DeniedNeverRuns` | verify.c:263-317 | an image whose SHA-256 hash stands in any deny list, or whose SHA-1 hash stands in the vendor's or the firmware's, does not run, whoever its parent is |
| `Policy.DerIff` | verify.c:56-84 | a certificate is taken for DER if and only if it is a sequence whose two-byte length is that of its body |
| `Policy.DenyHashIff` | verify.c:259-317 | in well-formed databases the image's hash is denied if and only if it stands behind some owner in a list of its type, as SHA-256 in any denylist, as SHA-1 in the vendor's or the firmware's |
| `Policy.DenyCertIff` | verify.c:259-317 | a signature is denied if and only if a certificate that may sign code and made it is the first of an X.509 list in one of the three denylists |
| `Policy.AllowHashIff` | verify.c:326-404 | the hash is allowed if and only if it stands in db, unless that is ignored, the vendor's list or MokListRT, as SHA-1 in db alone |
| `Policy.AllowCertIff` | verify.c:326-404 | a signature is allowed by the lists if and only if its certificate is the first of an X.509 list in one of them |
| `Policy.PassesIff` | verify.c:406-501 | a signature counts if and only if no denylist has its certificate and an allowlist has it or it is built in |
| `Policy.VerdictIff` | verify.c:503-653 | the verdict on an image with a well-formed certificate table: its hash is denied nowhere, and its parent was verified, its hash is allowed, or one of its signatures counts |
| `Policy.DeniedSignerFails` | verify.c:278-313 | a certificate in one well-formed denylist denies its signature whatever the other databases hold |
| `Policy.AllSignersDenied` | verify.c:574-653 | an image whose every signature is denied is not approved, unless its hash is allowed or its parent was verified |
| `Policy.AllowedHashRuns` | verify.c:329-385 | a hash in one well-formed allowlist that is asked, and in no denylist, is enough |
| `Policy.AllowedSignerPasses` | verify.c:345-401 | so is a certificate in one |
| `Policy.BuiltInPasses` | verify.c:430-495 | and a certificate that is built in |
| `Policy.ApprovedIff` | verify.c:655-733 | an image that can be digested is approved if and only if hash and signatures pass, no section named .sbat has relocations or follows one with data, and the revocation level accepts the raw data of the one that has some |
| `Policy.RoomIff` | pe.c:505-520 | with a level a written section needs room for its copy, each row and the packed table |
| `Policy.BadTableFails` | verify.c:587-620 | an entry cut off by the file or the directory, shorter than its header or longer than the directory makes the table an error, whatever good entries stand before it |
| `LoadOption.BuildOption` | fallback.c:147-166 | the cursor writes attributes, path length, title, path and arguments, and nothing is counted for empty arguments |
| `LoadOption.ScanDescription` | load-options.c:134-151 | the end of the description, or a rejection of anything but eight-bit characters |
| `LoadOption.ScanPath` | load-options.c:163-212 | the end of the path nodes, a rejection, or a walk without end, with remainder, counter and header index in 32 bits |
| `LoadOption.GetOptionalData` | load-options.c:107-220 | the optional data of any bytes, none, a rejection, or a node walk without end |
| `LoadOption.NoWayBack` | load-options.c:174-212 | a node walk that has left the option ends behind its limit unless the counter wraps, so the option is rejected |
| `LoadOption.EndlessIff` | load-options.c:167-212 | a walk that has not ended after as many nodes as the counter has values does not end after any number |
| `LoadOption.BadNodeRejects` | load-options.c:183-205 | a first path node shorter than its header, longer than the option, or an end node longer than its header makes the option invalid |
| `LoadOption.RestIs` | load-options.c:167-167 | what is left of the option is a 32-bit difference |
| `LoadOption.ReadsBack` | load-options.c:111-220 | reading a written option gives exactly its argument bytes, or nothing when there were none, if and only if the title is Latin-1 and title and arguments are not both empty |
| `Ip6.Str2Ns` | netboot.c:116-132 | the 16-bit value of a group in network order |
| `Ip6.CheckText` | netboot.c:159-172 | only hexadecimal digits and colons, and at most one double colon |
| `Ip6.CheckLong` | netboot.c:159-172 | on a text of 256 bytes or more the loop, whose counter has eight bits, can only end by a rejection |
| `Ip6.Forward` | netboot.c:175-187 | the groups up to the first double colon or the end, with the text restored |
| `Ip6.Backward` | netboot.c:188-199 | the groups after the double colon in the last words, with the text restored |
| `Ip6.Str2Ip6` | netboot.c:134-201 | for every text on which the function returns, the sixteen network-order bytes of the words it stands for, and the text unchanged |
| `Ip6.ValueIsNumber` | netboot.c:116-132 | a group's value is the number its digits denote, modulo 65536 |
| `Ip6.WrittenRead` | netboot.c:116-132 | a 16-bit number in hexadecimal notation, with small or capital letters, is read as the number |
| `Ip6.Rejected` | netboot.c:145-172 | more than seven colons, a second double colon or any other character: all zeros |
| `Ip6.FullFormReads` | netboot.c:134-201 | every address written with eight groups is read as those groups |
| `Ip6.CompressedFormReads` | netboot.c:134-201 | every address with a run of zero groups written as `::` is read as its eight groups, if and only if the `::` does not stand for one group at either end |
| `Ip6.SingleGroupLost` | netboot.c:145-154 | seven groups and a final `::` are read as all zeros |
| `Ip6.SwappedIsNetworkOrder` | netboot.c:131-131 | the stored words are the address bytes in network order |
| `Blowfish.NextWord` | crypt_blowfish.c:542-561 | four more characters of the cyclic key, in the correct and in the sign-extended word |
| `Blowfish.Action` | crypt_blowfish.c:577-581 | the branch-free masks give bit 16 exactly if the flag is set, a sign extension was seen and no word differs |
| `Blowfish.SetKey` | crypt_blowfish.c:496-595 | both key arrays are the cyclic key words, and bit 16 of the first initial word is flipped exactly under that condition |
| `Blowfish.WordsAgreeIff` | crypt_blowfish.c:543-562 | the correct and the sign-extended word agree if and only if every character before a high one in its block is 0xff |
| `Blowfish.DeviatesIff` | crypt_blowfish.c:543-594 | the safety bit flips if and only if it is asked for, a character other than the first of its block is above 0x7f, and all eighteen words agree |
| `Blowfish.MixedTwice` | crypt_blowfish.c:562-594 | mixing a word in twice leaves nothing of it, and the deviation flips bit 16 and no other |
| `Blowfish.DeviationNeedsFf` | crypt_blowfish.c:503-519 | the safety measure touches only passwords that contain 0xff |
| `RingList.Init` | include/list.h:29-33 | a head alone is a ring |
| `RingList.IsEmpty` | include/list.h:35-39 | empty if and only if the ring is the head alone |
| `RingList.Link` | include/list.h:41-49 | linking between two neighbours inserts into the sequence, with next and prev mutually inverse |
| `RingList.Add` | include/list.h:51-55 | insertion right after the head |
| `RingList.AddTail` | include/list.h:57-61 | insertion at the end |
| `RingList.Del` | include/list.h:63-82 | removal from the sequence; the others close around the gap |
| `RingList.Size` | include/list.h:105-114 | the number of elements after the head |
| `RingList.FreeList` | csv.c:37-48 | the delete-while-walking loop frees every row once, in order, and leaves an empty ring |
| `PostProcess.SetDllCharacteristics` | post-process-pe.c:338-364 | the NX flag is as asked, and every other bit of the file is unchanged |
| `PostProcess.FixTimestamp` | post-process-pe.c:425-444 | the timestamp is zero |
| `PostProcess.FixChecksum` | post-process-pe.c:446-482 | the checksum is the folded sum of the file with a zero field, plus the size, in 32 bits |
| `PostProcess.ValidateNxCompat` | post-process-pe.c:366-423 | fails if and only if NX is required and the flag, an alignment or a section forbids it |
| `PeFile.NxIff` | post-process-pe.c:366-423 | an encoded header passes NX validation if and only if its flag is set, both alignments are whole pages and no section is writable and executable |
| `PostProcess.HandleOne` | post-process-pe.c:511-519 | the flag, the NX validation that may end the program, then timestamp and checksum |
| `PostProcess.HandledIs` | post-process-pe.c:511-519 | the flag is as asked; after a failed validation nothing else changed, otherwise the timestamp is zero |
| `PostProcess.FoldKeepsSum` | post-process-pe.c:463-467 | the fold stays within 16 bits and is congruent to the sum of the words modulo 65535 |
| `PostProcess.FoldZeroIff` | post-process-pe.c:463-467 | the fold is zero if and only if every word is zero |
| `PostProcess.ChecksumIs` | post-process-pe.c:446-482 | the checksum less the file size is congruent to the sum of the file's words modulo 65535 |
| `PostProcess.ProcessedTwice` | post-process-pe.c:338-482 | a second run with the same options changes nothing |
| `PostProcess.HandledTwice` | post-process-pe.c:511-519 | a second run with the same options changes nothing and ends alike, aborted or not |
| `Boot.CollectSections` | pe.c:885-951 | the sections that are cached for a loaded image, with size and digest of the bytes between their two addresses, of which either can be NULL |
| `Boot.CachedInside` | pe.c:885-951 | for a section inside the image these are its virtual size and the digest of its memory |
| `Boot.CachedOutside` | pe.c:885-944 | for a section that starts behind the image they start at NULL |
| `Boot.CachedIff` | pe.c:885-944 | exactly the readable sections with code or initialized data that are not discardable and empty are cached |
| `Boot.Admit` | pe.c:605-671 | a file passes if and only if its header is accepted and it is verified, or outside secure mode digested |
| `Boot.Load` | pe.c:686-951 | the layout succeeds if and only if pages, sections and relocation do, and then image, entry points and cached sections are those of the file |
| `Boot.Examine` | pe.c:605-977 | what `handle_image` finds out about the bytes of a file: header, verdict or, outside secure mode, digest, then layout, relocation, entry points and sections |
| `Boot.HandleImage` | pe.c:605-977 | success if and only if the file is accepted, or outside secure mode can be digested, its layout and relocation succeed, one section holds the entry point and its sections find room in the cache; the step of the loader protocol that this makes |
| `Boot.OnlyAcceptedRuns` | loader-proto.c:208-349 | in every secure-mode run every admitted image is accepted on its bytes; without a vouching signature or hash of its own only with the size and digest of a live cached section of a parent that was accepted with one |
| `Boot.CachedImageIsSection` | loader-proto.c:226-236 | if nothing else of its size has its digest, an image admitted through the cache is that section's bytes in memory |
| `Boot.DeniedNeverAdmitted` | verify.c:259-317 | no run admits an image whose SHA-256 hash stands in a well-formed deny list, or whose SHA-1 hash stands in the vendor's or the firmware's, not even as a section of a verified parent |
| `Boot.LoadedIsAccepted` | loader-proto.c:208-349 | a load that succeeds in any secure-mode run: its bytes are accepted on their own, or with the word of a parent whose bytes an earlier call accepted on their own, that has not ended, and one of whose sections has their size and digest |
| `Boot.AcceptedIsTrusted` | verify.c:503-653 | what acceptance means in terms of the entries of well-formed databases and certificate tables |

## Left out

- SectionCache.Cache.CacheSection: a slot that was allocated before the digest failed does not show in the contents.
- LoaderProtocol.Loader.RunHandleImage: verification, layout and entry-point counts enter as outcomes, which `Boot.HandleImage` computes from bytes.
- Boot.Examine: outside secure mode an image admitted through the cache is not digested at all, so its copies may read past the file; that case is not modelled.
- Boot.HandleImage: the same case, and bytes on which a database walk that is made does not end.
- `shim_start_image`: `setjmp` and `longjmp`; an exit is the step that ends a started image.
- Authenticode.GenerateHash: digest contexts and their failures; the stream is what both digests are fed with.
- ImageLoad.LoadImage: memory attributes, and freeing the pages on failure.
- Databases.CheckDbHashInRam: bytes on which the loop of the source does not end or divides by zero.
- Verify.Verifier.VerifyBuffer: databases on which a walk that is made does not end or divides by zero; likewise for the checks it consists of.
- Verify.FindSbat: the bound on each section header is not repeated, because a digested image has its section table inside the file.
- MokMirror.MirrorPass: the direct copy of a database that fits one variable, and the dummy entry when nothing fits.
- SbatSection.ParseSbatSection: the pointers stored in the entries are offsets.
- LoadOption.GetOptionalData: sizes of 4 GiB or more, which the 32-bit `data_size` cannot hold.
- Ip6.Str2Ip6: texts on which the source does not return; its only caller passes at most 39 bytes.
- PostProcess.HandleOne: loading and validating the file; the offset of the PE header is given.
- Password hashing beyond the key setup: the Blowfish rounds and tables, and the base-64 text of salts and hashes.
- OpenSSL, SHA and X.509 code; the key-usage test and signature verification are parameters.
- Console menus, password prompts and certificate display.
- Network and file reading, DHCP options and TFTP transfers.
- TPM measurements, memory attributes, watchdog and time handling.
- Pool allocation and freeing, apart from counted sizes and reported failures.
- 32-bit images and loaders, and the development build options.
- Boot order editing, masked boot options and boot-option search in fallback.c.
- Path generation and option splitting in load-options.c.
- Buffer assembly and measurement around `mirror_mok_db`, and the import of MOK state.
- The SSP policy variables, `parse_sbat_var_data`, which packs rows like the image's section, and `ssp_ver_to_ull`.
- Enrolment, reset and deletion dialogues of MokManager, and the password checks before them.
