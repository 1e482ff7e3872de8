# Verification of the pCloud client's file store

This project models the parts of the client that decide whether a user's data survives, and proves
properties of them for all inputs, all runs and all interleavings:

- the **encrypted file** of `pfscrypto.c`: where sectors, authentication sectors and the master record are
  stored; the log that writes go to; the incremental update of the hash tree; the replay of the log; reads,
  writes and truncations, and recovery after a crash;
- the **cipher modes** of `pcrypto.c`: sectors with ciphertext stealing, texts, and a counter mode in place;
- the **checksums** of `pcrc32c.c`: the CRC in its software and hardware forms, and the streaming hash;
- the **pending changes** of `pfstasks.c`: the overlay over the database, its task table with dependencies,
  the completion of tasks, and the rebuild at startup;
- the **smaller structures**: the list sort of `plist.c`, the interval tree of `pintervaltree.c` with the
  modified files of `pfs.c` that use it, the binary answers of `papi.c`, and the cache of `pcache.c` with its timer.

## How the model is built

Every module is one file. Modules whose names end in `Ops`, and the classes, hold the source's methods, with its
loops, buffers and in-place updates; the others hold the specification functions those methods are proved against,
and the lemmas about these functions. `AuthTree*`, `HashTree`, `ReplayTree`, `TreeCheck`, `CryptoLog`, `LogRecords`,
`TreeBytes` and `Layout*` lead to `FileState`, `SectorStore`, `SectorIndex` and `EncryptedFile` (the open file),
`FileRuns` (whole runs) and `Recovery`; `Integrity` says what a master record and the records of the sectors vouch for;
`LogMeter` and `LongLogs` say which operations and runs outgrow the log. `CrcBursts` and `HashWords` say which changes
the checksum and the hash find, and `HashConstants` has the words that the hash starts with.
`FsTaskRows`, `FsTaskState`, `FsTaskDone` and `FsTaskRestart` are the values under `FolderTable`, `FsTasks` (the
operations), `FsTasksInit` (the restart) and `FsTaskRuns` (whole runs). `ListOrder`, `ListSort` and `ListExtract`
are the lists, `IntervalTree` and `ModifiedFile` the interval tree and its use, `BinFormat`, `BinValues`,
`BinOverread` and `BinParser` the answers, `CacheTimer` the cache.

AES is a pair of functions on blocks that undo each other (`Cipher.KeysOk`), HMAC is built from an unknown
hash function of 64-byte results, and random values, file ids from the server and the outcome of a write are
parameters. Nothing else is assumed of them. In particular nothing is assumed about collisions: where the source trusts
that an HMAC or a hash tells two messages apart, the lemma names the two messages that would have to collide
(`Cipher.Clash`).

Searches in balanced trees are modelled on the in-order sequence of the nodes. In `IntervalTree` and `SectorIndex` a
search may find any node at the root of a subtree, so it is proved for every shape that the balancing can give the
tree. The header of an index file has no bytes (`pfs.h:128-130`), so its records start at 0. In `CacheTimer` every
critical section is cut into the steps between which another thread can run, with the locks as part of the state.

## Where the code does not do what one would expect

For each of these there is the condition under which the code does what one expects, in both directions and for all
inputs:

- The last flush of the hash tree goes from the last written sector to the sentinel "no sector", which divides
  down to 0 at the fourth level: the root is written exactly for files of at most 2^28 sectors
  (`AuthTreeWrite.FinalFlushReachesRoot`, `AuthTreeWrite.WriteAuthTree`).
- The 32-bit function for the place of a sector wraps around, and agrees with the 64-bit one exactly below a certain
  sector (`LayoutOps.DataSectorAgrees`).
- The length of the log has 32 bits (`pfs.h:120`), and only writes, flushes and the extender look at it. The model
  stops with `ABORTED` where the sum wraps around; the source goes on and writes over the beginning of its log
  (`LogMeter.WrappedIsNotAppended`). For every operation the bytes that it logs are computed from sizes and offsets
  alone, and it stops exactly if they do not fit (`EncryptedFile.OpenFile.Write`, `.Ftruncate`, `.Finalize`). One byte
  written at 5 GB of a new file does not fit (`LongLogs.FarWriteFails`), nor does half a million truncations in a row
  (`LongLogs.WigglesFail`); runs of writes of up to 64 MB with their gaps, and of at most 256 truncations in a row of
  whatever size, always do (`LongLogs.CalmRunsAreDone`).
- HMAC cuts keys longer than a block where RFC 2104, section 2, hashes them: it is the standard's for every hash
  function exactly for keys of up to a block (`Cipher.HmacExactly`).
- Encoding a sector in place reads bytes of the partial block that it has overwritten
  (`SectorCipher.InPlaceEncode`).
- A text survives encoding exactly if it is not empty and has no NUL (`TextCipher.TextRoundTrip`); for the empty text
  the code writes past its buffer (`TextCipherOps.EncodeText`). So does the counter mode for data that end in the block
  in which they start (`Ctr.EncodeDecodeInPlace`).
- Removing an empty range from an interval tree cuts an interval around it in two that touch (`IntervalTree.Tree.Remove`).
- Removing a folder drops a pending folder of the name before it is known to be empty (`FsTasks.Tasks.Rmdir`).
- Renaming a folder looks for a pending folder to replace under the old name in the new parent; live trees and a
  restart agree exactly if none is in the way (`FsTasks.Tasks.RenameFolder`). Its dependencies on tasks of the
  new name look in the renamed folder instead of the new parent.
- Renaming a file onto itself makes the task wait for its own first row, and that is the only rename that does
  (`FsTasks.Tasks.RenameFile`).
- A write to a modified file of which the system takes only a part still grows the file as if all of it had been
  taken: the file is right afterwards exactly if everything was taken or it did not grow
  (`ModifiedFile.Modified.Write`). A read past the end of a file that was made shorter than the server's returns the
  server's bytes, unless it lies in one interval that was written (`ModifiedFile.Modified.Read`,
  `ModifiedFile.ReadPastTheEnd`).
- The parser of answers looks at the byte after the tag of an array or a hash before it checks that there is one. It
  does so exactly for the beginnings of answers that end in such a tag (`BinOverread.OverreadExactly`,
  `BinOverread.Beginning`), of which the shortest are single bytes (`BinOverread.OneByte`).

## Model

| member | source | states |
|---|---|---|
| Layout.SubtreeIsRange | pfscrypto.c:105-114 | a sector has a node as its ancestor exactly if it lies between the node's first and last leaf |
| Layout.PhysNodeClosedForm | pfscrypto.c:116-124 | the closed form of the position of a complete authentication sector is the post-order position after its last leaf |
| Layout.RegionInside | pfscrypto.c:126-159 | every region (data sector, authentication sector, master record) is non-empty and inside the file |
| Layout.RegionsDisjoint | pfscrypto.c:105-159 | two different regions share no byte |
| Layout.RegionAt | pfscrypto.c:126-159 | every byte of the file belongs to a region, so the regions cover it exactly |
| LayoutSizes.LevelFound | pfscrypto.c:161-175 | the first loop from the encrypted size stops at the number of levels that the plain size gives |
| LayoutSizes.CountRecovered | pfscrypto.c:176-188 | one division recovers the number of signatures of a level from the size above it |
| LayoutSizes.LevelsBound | pfscrypto.c:85-93 | trees have 1 to 5 levels, so they stay within the arrays |
| LayoutSizes.CryptoSizeInjective | pfscrypto.c:1702-1712 | no two plain sizes have the same encrypted size |
| LayoutOps.DataOffset | pfscrypto.c:105-114 | the loop computes the position of a data sector in the post-order layout, without overflow |
| LayoutOps.DataSectorId | pfscrypto.c:95-103 | the loop on 32-bit numbers computes the wrapped position |
| LayoutOps.DataSectorAgrees | pfscrypto.c:95-114 | the 32-bit and the 64-bit form agree exactly below the first sector whose position needs more bits |
| LayoutOps.AuthOffset | pfscrypto.c:116-124 | the loop computes the position of a complete authentication sector |
| LayoutOps.OffsetsByPlainSize | pfscrypto.c:126-159 | the offsets record describes the layout of the file, field by field |
| LayoutOps.OffsetsByCryptoSize | pfscrypto.c:161-191 | from the encrypted size of any file it computes the record of that file |
| LayoutOps.BothLayouts | pfscrypto.c:126-191 | the two formulas agree in every field, so the plain size survives |
| LayoutOps.PlainSize | pfscrypto.c:1702-1706 | the plain size is recovered from the encrypted size |
| LayoutOps.ComputeCryptoSize | pfscrypto.c:1708-1712 | the encrypted size is the end of the last region |
| LayoutOps.LastSectorBySize | pfscrypto.c:242-250 | the last byte of a file lies in the sector that is found, 0 for an empty file |
| LayoutOps.GetAuthSectorOff | pfscrypto.c:1714-1736 | the region named is that of the sector's true ancestor, and the slot lies inside it |
| LogRecords.RecordSurvives | pfscrypto.c:706-799 | a record is in the replayed file unless a later record touches it |
| LogRecords.ReplayRepairs | pfscrypto.c:706-799 | a full replay gives the same file however bytes covered by the log's records were damaged |
| LogRecords.InterruptedIsDamaged | pfscrypto.c:706-799 | a replay that stops after any record, or inside one, leaves such a file |
| LogRecords.DamageAccumulates | pfscrypto.c:1769-1811 | any number of interrupted replays leaves such a file |
| HashTree.UntouchedPlace | pfscrypto.c:576-609 | an authentication sector above no written sector keeps its place when the file grows or shrinks |
| HashTree.CompleteTail | pfscrypto.c:135-150 | if the last subtree is complete, its packed authentication sector lies where a complete one would |
| AuthTree.LeavingIsComplete | pfscrypto.c:538-574 | when the path leaves a node, the buffer of its level holds all signatures of its children |
| AuthTree.EnteringNeedsUntouched | pfscrypto.c:576-609 | when the path enters a node, only children without written sectors have to be in the buffer |
| AuthTree.LoadedNode | pfscrypto.c:586-607 | reading the node from the old file brings those |
| AuthTree.LoadedMaster | pfscrypto.c:586-607 | so does the old master record when the tree gains a level |
| AuthTreeOps.Locate | pfscrypto.c:542-550 | both loops find position and length of the authentication sector |
| AuthTreeOps.FlushPath | pfscrypto.c:533-575 | every node that is left is signed into its parent's buffer and logged, with its right contents |
| AuthTreeOps.LoadPath | pfscrypto.c:576-609 | every node that is entered is loaded, the others keep their buffers |
| AuthTreeWrite.FinalFlushReachesRoot | pfscrypto.c:533-574 | the flush to the sentinel reaches the root exactly for at most 2^28 sectors |
| AuthTreeWrite.SwitchSectors | pfscrypto.c:525-611 | the path to the next written sector is right, and what is left is logged |
| AuthTreeWrite.WriteMasterAuth | pfscrypto.c:613-639 | the master record signs the buffer of the root |
| AuthTreeWrite.WriteAuthTree | pfscrypto.c:641-665 | for at most 2^28 sectors every touched node and the master record are logged with their right contents, each once; the root is logged exactly then |
| TreeBytes.LeftStep | pfscrypto.c:533-574 | the step to the next written sector leaves exactly the nodes where the paths differ |
| TreeBytes.UpdateLen | pfscrypto.c:641-665 | the bytes that the update of the tree takes: one record for every node above a written sector, and the master record |
| TreeBytes.TreeNeedBound | pfscrypto.c:641-665 | at most one complete node a level for every written sector |
| AuthTreeWrite.RootMissing | pfscrypto.c:525-665 | in larger files the root is not logged |
| ReplayTree.TreeReplayed | pfscrypto.c:525-665 | replaying the data records and the tree update over the old file gives a correct hash tree of the new file, grown or shrunk |
| TreeCheck.LocalTreeCheck | pfscrypto.c:252-299 | the check returns 0 exactly for a correctly signed path |
| TreeCheck.CorrectTreePasses | pfscrypto.c:252-299 | every sector of a correct tree passes |
| TreeCheck.CheckDecidesTree | pfscrypto.c:252-299 | a tree is correct exactly if every sector passes |
| FileState.SignatureOpens | pcrypto.c:721-729 | the two blocks of a signature decode to the first 32 bytes of the HMAC of what was signed |
| FileState.SameSignature | pcrypto.c:721-729 | two signatures are equal exactly if the data are, or their HMACs begin with the same 32 bytes |
| Integrity.SameTree | pfscrypto.c:252-299 | if every sector passes the check in two files with one master record, they agree in every authentication sector, or two that differ have HMACs that begin alike |
| Integrity.SameSector | pfscrypto.c:347-388 | a sector that two such files both accept is the same in them, or one of the named pairs collides |
| Integrity.SameFile | pfscrypto.c:252-299 | two such files that accept all their sectors are the same, byte by byte, or a named pair collides |
| Integrity.ReadIsGenuine | pfscrypto.c:347-388 | what is accepted from a changed file with the old master record is what was stored, or a named pair collides |
| Integrity.MasterDecidesPlain | pfscrypto.c:613-639 | two stored files of one size and one master record have the same plain bytes, or a named pair collides |
| CryptoLog.HeadRoundTrip | pfscrypto.c:49-69 | all fields of a record's header survive |
| CryptoLog.Log.StartFile | pfscrypto.c:193-206 | a new log has a blank master sector and no records |
| CryptoLog.Log.Append | pfscrypto.c:1031-1056 | a record is appended to the log and to its hash |
| CryptoLog.Log.AppendRange | pfscrypto.c:876-915 | a changed range is appended to the log and to its hash |
| CryptoLog.Log.MarkFinalized | pfscrypto.c:817-836 | the master record of a finalized log has size, length, hash and checksum of what was written |
| CryptoLog.FinalizedIsAccepted | pfscrypto.c:667-704 | a finalized log passes all checks, also the recomputation of its hash in chunks |
| CryptoLog.UnfinishedIsRejected | pfscrypto.c:706-740 | a log that was not finalized does not |
| CryptoLog.CheckLogHash | pfscrypto.c:667-704 | the recheck accepts exactly the hash of the log's body |
| CryptoLog.HashDecides | pfscrypto.c:667-740 | a log with the master record of a finalized one passes exactly if it is as long and its body has the same hash |
| CryptoLog.ChecksumDecides | pfscrypto.c:726-730 | with the checksum of a finalized one it is rejected if the CRC of the rest is another |
| CryptoLog.BurstInMaster | pfscrypto.c:726-730 | and the CRC is another after every change of up to four bytes in a row |
| CryptoLog.ProcessLog | pfscrypto.c:706-799 | a rejected log changes nothing: so a log with the master record of a finalized one but another length or another hash of its body, or with another CRC under the same checksum; a finalized one is replayed onto the data file, and its ranges go to the index file |
| Crc32c.TableBasis | pcrc32c.c:48-58 | the tables' recurrence gives the source's constants at powers of two, and the tables are linear |
| Crc32c.CrcConcat | pcrc32c.c:352-354 | the bitwise CRC of a concatenation continues that of the first part |
| Crc32c.Slice8IsCrc | pcrc32c.c:328-338 | eight table look-ups are eight bytes of the bitwise CRC |
| Crc32cOps.ShiftChunkIsShift | pcrc32c.c:582-591 | the four table look-ups shift a CRC over 1360 zero bytes |
| Crc32cOps.SoftwareCrc | pcrc32c.c:359-400 | for every length and alignment it is the bitwise CRC |
| Crc32cOps.HardwareCrc | pcrc32c.c:593-646 | with three merged streams, too |
| CrcBursts.BurstIsFound | pcrc32c.c:352-400 | a change of up to four bytes in a row, anywhere in the data, changes the CRC |
| CrcBursts.CrcInjective | pcrc32c.c:352-400 | from different CRCs the same data leads to different ones |
| FastHash.Hasher.Init | pcrc32c.c:676-684 | an empty stream |
| FastHash.Hasher.Update | pcrc32c.c:819-882 | the stream grows by the data, whatever was buffered; the buffer's length is in its last byte |
| FastHash.Hasher.Final | pcrc32c.c:884-908 | the digest of the stream |
| FastHash.HashPieces | pcrc32c.c:819-908 | the hash depends only on the concatenation of the updates |
| FastHash.DigestPortable | pcrc32c.c:794-806 | the software and the hardware form have the same digest |
| HashWords.WordCountsInRound | pcrc32c.c:727-747 | blocks that differ in one of their eight words lead to different states |
| HashWords.WordCounts | pcrc32c.c:819-908 | if streams of one length differ in one word, wherever it is, the digest is mixed from different states |
| HashConstants.StartValue | pcrc32c.c:681 | the words that the state starts from |
| HashConstants.PaddingValue | pcrc32c.c:886 | the words that the last block is filled up with |
| HashConstants.MixValue | pcrc32c.c:895-907 | the digest of one state, as a check of the mixing |
| Cipher.OneShotHmac | pcrypto.c:68-89 | the one-shot form computes the HMAC of RFC 2104, section 2, with the key cut to one block |
| Cipher.HmacContext.Final | pcrypto.c:62-66 | so does the incremental form, for every split of the message |
| Cipher.HmacIsRfc2104 | pcrypto.c:40-89 | it is the HMAC of RFC 2104, section 2, which is written out byte by byte, with the key cut to one block |
| Cipher.HmacExactly | pcrypto.c:40-89 | it is the HMAC of RFC 2104 for every hash function exactly if the key is not longer than a block |
| Cipher.CbcRoundTrip | pcrypto.c:483-506 | CBC decoding undoes encoding (NIST SP 800-38A, section 6.2) |
| Cipher.CbcRoundTripBack | pcrypto.c:540-570 | and encoding undoes decoding |
| Cipher.CbcBlock | pcrypto.c:483-506 | every block of the ciphertext is the encoding of its plain block combined with the ciphertext block before it |
| SectorCipher.SectorRoundTrip | pcrypto.c:447-590 | for every length decoding a sector returns success and the data |
| SectorCipher.AcceptedAreEncoded | pcrypto.c:518-590 | decoding accepts exactly the encodings of what it returns |
| SectorCipher.SectorBlocks | pcrypto.c:456-516 | the blocks are chained from the HMAC of data, sector number and random value; a partial one lies where the block before it was encoded first, and its beginning at the end |
| SectorCipher.ShortAuthBack | pcrypto.c:461-469 | the record of a short sector decodes to the data under the random value, and the hash |
| SectorCipher.LongAuthBack | pcrypto.c:476-480 | that of a longer one to the halves of the random value around the hash |
| SectorCipher.RecordVouches | pcrypto.c:518-590 | two ciphertexts and numbers accepted with one record are the same, or the HMACs of the two messages begin with the same 16 bytes |
| SectorCipher.NumberIsHashed | pcrypto.c:457-460 | so a sector that is accepted under two numbers needs such a collision |
| SectorCipher.InPlaceEncode | pcrypto.c:447-516 | encoding in place is right exactly if no partial block is lost |
| SectorCipherOps.MemcmpConst | pcrypto.c:438-445 | 0 exactly for equal bytes |
| SectorCipherOps.EncodeBlocks | pcrypto.c:483-506 | the loop is CBC, in place or not |
| SectorCipherOps.DecodeFourIsCbc | pcrypto.c:546-558 | four blocks at once are four single blocks |
| SectorCipherOps.DecodeByFour | pcrypto.c:540-558 | the loop over four blocks is CBC, in place or not |
| SectorCipherOps.EncodeSector | pcrypto.c:447-516 | the output buffers hold the encoding, in place or not |
| SectorCipherOps.DecodeSector | pcrypto.c:518-590 | the output buffer holds the plain text, and 0 is returned exactly for authentic sectors, in place or not |
| TextCipher.TextRoundTrip | pcrypto.c:247-356 | a text survives exactly if it is not empty and has no NUL |
| TextCipher.FirstBlockOpens | pcrypto.c:256-268 | the first block decodes to the text under the iv, and for a long text to its beginning whitened by the HMAC of its rest; the others are chained from it |
| TextCipherOps.CopyPad | pcrypto.c:233-245 | the next block, padded with zeros |
| TextCipherOps.EncodeText | pcrypto.c:247-280 | the buffer holds the encoding, single-block or whitened by HMAC; it is too short exactly for the empty text |
| TextCipherOps.DecodeText | pcrypto.c:282-356 | the text, or nothing if the padding or the length is wrong |
| Ctr.CtrRoundTrip | pcrypto.c:167-212 | the counter mode undoes itself at every offset |
| Ctr.CtrPieces | pcrypto.c:167-212 | pieces at their offsets make the whole |
| Ctr.BlocksDiffer | pcrypto.c:126-134 | the same block of data is encoded differently under any two block numbers below 2^64 |
| Ctr.EncodeDecodeInPlace | pcrypto.c:167-212 | the buffer is changed in place by the key stream at its offset, and it is too short exactly if it ends inside the block in whose middle it starts |
| SectorIndex.FindSector | pfscrypto.c:487-511 | the search finds the sector or its place |
| SectorIndex.PutReplaces | pfscrypto.c:487-523 | the index stays sorted, with the new entry instead of an old one |
| FileState.StoreLogged | pfscrypto.c:1031-1056 | index and log stand for the changed file after a record was appended |
| FileState.UpdatePlan | pfscrypto.c:641-665 | the index is what the update of the tree needs |
| FileState.FinalizedDisk | pfscrypto.c:917-973 | the replayed file holds the plain file, and its tree is correct |
| SectorStore.ReadFromLog | pfscrypto.c:208-240 | the sector that the entry stands for |
| SectorStore.AuthOnDisk | pfscrypto.c:1714-1736 | the signature of a sector lies in its slot of the lowest authentication sector |
| SectorStore.ReadFromDataFile | pfscrypto.c:347-388 | the sector of the plain file, authenticated, with or without the check of the tree |
| EncryptedFile.OpenFile.Read | pfscrypto.c:427-485 | reads return the plain file's bytes |
| EncryptedFile.OpenFile.WriteFullSector | pfscrypto.c:1031-1056 | a sector is encoded and logged, and the plain file has it; the log is too long exactly if its record does not end below 2^32 |
| EncryptedFile.OpenFile.WritePartialSector | pfscrypto.c:1058-1071 | part of a sector is changed |
| EncryptedFile.OpenFile.FillZero | pfscrypto.c:1073-1110 | zeros are appended, exactly if the records of the sectors that they touch fit the log |
| EncryptedFile.OpenFile.Write | pfscrypto.c:1112-1183 | writes change the plain file like a write to a byte array, exactly if `WriteStep` of the sizes before has a result |
| EncryptedFile.OpenFile.Finalize | pfscrypto.c:917-973 | afterwards the data file alone stores the plain file, under a correct hash tree; done exactly if the records of the tree fit the log |
| EncryptedFile.OpenFile.FtruncateToZero | pfscrypto.c:1457-1477 | the file is empty |
| EncryptedFile.OpenFile.FtruncateDown | pfscrypto.c:1479-1559 | the plain file is cut, and nothing of the rest comes back when it grows again; done exactly if one more record fits |
| EncryptedFile.OpenFile.ExtendInSteps | pfscrypto.c:1561-1607 | the extender appends zeros in pieces, flushing a long log between them |
| EncryptedFile.OpenFile.Ftruncate | pfscrypto.c:1648-1693 | the plain file is cut or extended with zeros, exactly if `TruncateStep` of the sizes before has a result |
| LogMeter.WrappedIsNotAppended | pfscrypto.c:1041-1052 | a record at the wrapped offset is appended exactly if the log is shorter than 2^32 |
| LogMeter.SaneLogged | pfscrypto.c:1031-1056 | every full sector of the index has a full record in the log |
| LogMeter.SaneTree | pfscrypto.c:641-665 | so the tree takes at most four times the length of the log |
| LogMeter.SafeExtend | pfscrypto.c:1561-1607 | the extender never outgrows a log of moderate length, however far it goes |
| FileRuns.Run | pfscrypto.c:427-1183 | every run of writes, truncations, flushes and reads on a new file returns what a byte array returns; it goes to its end exactly if `MeterRun`, which looks at sizes and offsets alone, has a result |
| LongLogs.FarWriteFails | pfscrypto.c:1130-1135 | a byte at 5 GB of a new file outgrows the log |
| LongLogs.WigglesFail | pfscrypto.c:1648-1693 | so do truncations down and up again, exactly after so many |
| LongLogs.CalmRunsAreDone | pfscrypto.c:1176-1180 | runs of moderate writes, with not too many truncations in a row, never do |
| Recovery.CheckLog | pfscrypto.c:1769-1811 | a log found at startup is replayed if it passes all checks, over whatever interrupted replays have left; one that differs from a finalized one in the hash of its body, in length or in the CRC of its master record changes nothing |
| Recovery.RecoverUnfinished | pfscrypto.c:1769-1811 | a crash before the log is finalized leaves the file of the last flush |
| Recovery.CrashesDamage | pfscrypto.c:706-799 | any number of replays, each interrupted anywhere, leaves only damage that a replay repairs |
| Recovery.FlushCrashRecover | pfscrypto.c:1769-1811 | from an open file over the finalized log and any number of interrupted replays to the next start: the data file then stores the plain file under a correct tree |
| FsTaskRows.OverlayMeans | pfstasks.c:310-388 | through the overlay the database looks as if all pending tasks were done, in order |
| FsTaskRows.RebuildWithout | pfstasks.c:1265-1315 | without the first task of a name the overlay is the old one minus the task's entries |
| FsTaskRows.PlainWithout | pfstasks.c:1265-1377 | doing that task on the database and forgetting it changes nothing visible |
| FsTaskRows.SubRebuild | pfstasks.c:1236-1291 | putting the server's id for the temporary one into the rows puts it into the overlay |
| FsTaskRows.FilesArePaired | pfstasks.c:561-598 | every pending file has an entry that hides the name, with the same task |
| FsTaskRows.AddsUnique | pfstasks.c:561-598 | a name has at most one entry that adds |
| FsTaskState.AgreeShows | pfs.c:2400-2425 | trees that agree with the rows answer every look-up with the plain namespace |
| FsTaskState.InvAppend | pfstasks.c:287-308 | one more row with dependencies on all rows of its name keeps the table's invariant |
| FsTaskState.InvRename | pfstasks.c:904-996 | so do the two rows of a rename, which also note where an upload's file is now |
| FsTaskState.ReadyIsFirst | pfstasks.c:287-308 | a task that waits for nothing is the first one for its file name |
| FsTaskState.SomeTaskIsReady | pfstasks.c:279-308 | if every dependency goes to a smaller task, some pending task waits for nothing |
| FsTaskDone.FileDeleted | pfstasks.c:1317-1330 | deleting the file in the database and dropping its task leaves everything visible as it was |
| FsTaskDone.FileRenamed | pfstasks.c:1332-1377 | so does a rename that was carried out |
| FsTaskDone.FileUploaded | pfstasks.c:1236-1315 | an upload changes only the temporary id into the server's |
| FolderTable.Table.GetOrCreate | pfstasks.c:83-117 | a folder is found or made, with one more reference |
| FolderTable.Table.Release | pfstasks.c:153-163 | the last reference removes a folder without tasks, and no entry is lost |
| FolderTable.Table.Insert | pfstasks.c:210-241 | one more entry, and `taskscnt` counts the four trees |
| FolderTable.Table.Delete | pfstasks.c:1221-1234 | one entry less, and `taskscnt` counts the four trees |
| FolderTable.Table.FindName | pfstasks.c:165-265 | an entry of the name, if there is one |
| FsTasks.Tasks.FilesAreSeen | pfs.c:2400-2425 | every look-up of a file gives the database with all pending tasks done |
| FsTasks.Tasks.Exists | pfs.c:2400-2452 | whether the name stands for something after all pending tasks |
| FsTasks.Tasks.FindFile | pfs.c:2541-2590 | the id of the file that the name stands for after all pending tasks |
| FsTasks.Tasks.NewFilesAreHidden | pfstasks.c:561-598 | every pending file keeps an entry that hides its name, with the same task |
| FsTasks.Tasks.NeverStuck | pfstasks.c:279-308 | while tasks are pending, one can be carried out |
| FsTasks.Tasks.Mkdir | pfstasks.c:310-388 | the folder appears, with its row and all its dependencies, or exists already; a restart would agree |
| FsTasks.Tasks.Rmdir | pfstasks.c:458-559 | the folder disappears exactly if it exists and shows nothing, as entries and database, and as all pending tasks done, give it; the removal waits for every pending task in the folder or of its name; if it is not empty a pending folder is lost from the trees |
| FsTasks.Tasks.AddCreat | pfstasks.c:561-598 | the file appears under its temporary id, with its row, its two entries and all its dependencies |
| FsTasks.Tasks.AddModified | pfstasks.c:610-657 | the file gets a temporary id |
| FsTasks.Tasks.Unlink | pfstasks.c:800-888 | the file disappears or does not exist; its task knows the file that it removes |
| FsTasks.Tasks.RenameFile | pfstasks.c:904-996 | the file moves, replacing what was there; dependencies go to smaller tasks exactly if it is not renamed onto itself |
| FsTasks.Tasks.DeleteFolderIfEx | pfstasks.c:1022-1062 | a row for the removal of the target, if it exists, with its dependencies, and no entry |
| FsTasks.Tasks.RenameFolder | pfstasks.c:1064-1162 | the folder moves, with exactly these dependencies; live trees and a restart agree exactly under `RenameAgrees` |
| FsTasks.Tasks.CompleteUpload | pfstasks.c:1236-1315 | after an upload visible files are the same up to the server's id |
| FsTasks.Tasks.CompleteUnlink | pfstasks.c:1317-1330 | after a removal visible files are the same |
| FsTasks.Tasks.CompleteRename | pfstasks.c:1332-1377 | after a rename visible files are the same |
| FsTaskRestart.LegalDone | pfstasks.c:1426-1507 | new names stay new in the table when a task was carried out |
| FsTasksInit.InitRow | pfstasks.c:1426-1684 | the entries of one row; those of a new name do not replace any |
| FsTasksInit.Init | pfstasks.c:1771-1790 | the loop over all rows builds the overlay of the rows |
| FsTasksInit.Restart | pfstasks.c:1771-1790 | a restart answers every look-up of a file as the live trees did, and of a folder if these agreed with the table |
| FsTasksInit.Reopen | pfstasks.c:1771-1790 | the operations go on with the rebuilt trees |
| FsTaskRuns.FilesDiffer | pfstasks.c:904-996 | no two names show the same file |
| FsTaskRuns.Run | pfstasks.c:310-1507 | in every run of changes, completions and restarts look-ups of files give the plain namespace; completions and restarts are not seen |
| ListOrder.MergeInOrder | plist.c:53-80 | merging two sorted runs gives a sorted run, equal elements as they were |
| ListOrder.PassRuns | plist.c:46-98 | a pass doubles the length of the sorted runs |
| ListOrder.SortedIsUnique | plist.c:39-109 | there is only one stably sorted sequence |
| ListSort.MergeRuns | plist.c:58-92 | two runs of the list are merged by relinking their nodes |
| ListSort.PassOnce | plist.c:46-98 | a pass over the list, and whether it was the last one |
| ListSort.Sort | plist.c:39-109 | the list is circular again, and a stable sorted permutation of what it was |
| ListOrder.CountTaken | plist.c:111-135 | of every key as many elements are taken out of each list as the one has that has fewer |
| ListOrder.NoKeyInBoth | plist.c:111-135 | what is left of the two has no common key |
| ListExtract.ExtractRepeating | plist.c:111-135 | the four lists are circular, with the elements that stay and those taken out |
| ListExtract.ExtractedMeans | plist.c:111-135 | nothing is lost, and what is taken out is pairwise equal |
| IntervalTree.SameIntervals | pintervaltree.c:61-100 | sorted intervals that do not touch are determined by their set |
| IntervalTree.Tree.FirstContainingOrAfter | pintervaltree.h:63-79 | the first interval that ends after the point |
| IntervalTree.Tree.Add | pintervaltree.c:61-104 | set union; intervals stay sorted and do not touch |
| IntervalTree.Tree.Consume | pintervaltree.c:45-59 | intervals that the grown one reaches become part of it |
| IntervalTree.Tree.Remove | pintervaltree.c:106-128 | set difference; intervals stay apart exactly if the range is not empty or nothing is around it |
| IntervalTree.Tree.CutEnd | pintervaltree.c:135-153 | restriction to what is before the end |
| ModifiedFile.Load | pfs.c:998-1029 | the index file gives the set of its records |
| ModifiedFile.ReloadIsLive | pfs.c:998-1029 | and so the very intervals of the live writes |
| ModifiedFile.Modified.CheckSizeOk | pfs.c:1826-1847 | a file is extended with zeros that are noted as written |
| ModifiedFile.Modified.Write | pfs.c:2147-2165 | the write is in the file, the index and the tree; the file is right exactly if it was not cut short while growing |
| ModifiedFile.Modified.Ftruncate | pfs.c:2658-2686 | the file is cut or extended |
| ModifiedFile.Modified.IsWritten | pfs.c:2018-2034 | yes exactly if all the range was written |
| ModifiedFile.Modified.Read | ppagecache.c:1533-1585 | the written bytes over the server's; what is returned beyond the end, and exactly when it is the file |
| ModifiedFile.ReadPastTheEnd | ppagecache.c:1533-1585 | a file that was made shorter and is read as far as before: all of the server's bytes |
| BinFormat.ParseEncoded | papi.c:125-225 | every encoding is parsed as what it encodes, whatever follows |
| BinFormat.ParseSound | papi.c:125-225 | what is accepted is an encoding of the result |
| BinFormat.AcceptsTheGrammar | papi.c:125-225 | accepted are exactly encodings whose string ids name earlier strings |
| BinFormat.WrittenFits | papi.c:125-367 | the result takes at most the computed space, and exactly that if and only if all hash keys are strings |
| BinValues.ValuesCanBeSent | papi.c:44-66 | every value whose strings and numbers fit their lengths has a tree that writes it |
| BinValues.WrittenIsRead | papi.c:227-367 | a tree that writes a value, item by item, stands for it, whatever strings are known |
| BinValues.SpelledIsSame | papi.c:262-270 | putting the text in the place of every reference to it changes no value |
| BinOverread.OverreadExactly | papi.c:169-207 | the byte behind the input is looked at exactly if the input ends in the tag of an array or a hash that is reached |
| BinOverread.OneByte | papi.c:169-207 | as for the input of one such byte |
| BinOverread.Beginning | papi.c:169-207 | such an input is the beginning of an answer |
| BinParser.CalcRetLen | papi.c:125-225 | the first pass consumes the grammar's bytes, counts its strings and computes the space |
| BinParser.DoParse | papi.c:227-367 | the second pass consumes the same bytes, fills as many strings, uses only ids of filled ones, and builds the value that they write once references are spelled out |
| BinParser.ParseResult | papi.c:349-367 | the value that the bytes write, once references are spelled out, and the value of whatever written tree they begin with; within the space, a rejection, or an overread, exactly for inputs that end in a reached tag |
| CacheTimer.SameLock | pcache.c:40-41 | a bucket's lock is its hashes' lock, with the product wrapping at 32 bits |
| CacheTimer.CallbackFinds | pcache.c:149-164 | the callback finds its element linked, unless someone waits for it |
| CacheTimer.NextKeeps | pcache.c:99-251 | every step of every thread keeps the invariant |
| CacheTimer.CacheIsSafe | pcache.c:99-251 | in every interleaving no freed memory is used, every value is returned once or freed once, a look-up returns an element of its key and a deletion frees one, and a waiter is going to be told |
| CacheTimer.RequestIsServed | pcache.c:99-231 | a request goes on until it has the value of an element of its key, or none is left; only a look-up returns a value |

## Left out

- EncryptedFile.OpenFile.Ftruncate: the extender's thread is run to its end before the next operation; operations while
  it is at work, and its being stopped, are not modelled.
- Encrypted files that exist on the server (`modified`): they need the download of ranges from the page cache.
- EncryptedFile.OpenFile.Write: files of more than 2^28 sectors are excluded, because their root is not written.
- EncryptedFile.OpenFile.WriteFullSector: what the source does after the offset into its log has wrapped around; the
  model stops there with `ABORTED`.
- Recovery.FlushCrashRecover: a master record that was written only in part; its checksum finds every change of up to four
  bytes in a row (`CryptoLog.BurstInMaster`), and other changes if the CRC is another.
- Errors of reads and writes, the waits before a flush, and the repair after a failed write to the log.
- Balancing of trees: searches are modelled on the nodes in order.
- The rest of the CRC tables' constants: they are defined by their recurrence, and checked at powers of two and where the
  hash takes its words from.
- The versions of the sector cipher with other block layouts (`pcrypto.c:594-719`), key generation, AES and SHA.
- Crc32cOps.HardwareCrc: the variant for words of 4 bytes.
- Rows that are being uploaded, paused or cancelled: a row is pending or gone.
- Static, fake and banned entries of the overlay, and the ids in entries that hide a name, which are never read.
- Completions of folder tasks, which re-key the trees of a folder.
- Names that occur twice in one folder of the database.
- FsTasks.Tasks.Unlink: the file at an old place of the deleted one, which comes from the history table, is a parameter.
- FsTasks.Tasks.RenameFolder: nothing is claimed about the order of tasks of the folder's new name.
- FsTaskRuns.Run: of folders only the ids of new ones; look-ups of folders are in the contracts of the operations.
- ModifiedFile.Modified.Write: writes of no byte, which the source's assertion excludes, and offsets near 2^64.
- BinParser.DoParse: results are values; their addresses in the output buffer are not modelled, only how much of it is used.
- The other end of the protocol, `do_prepare_command`, and the reading of an answer from a socket.
- CacheTimer.CacheIsSafe: the order in which a sweep visits a bucket, the timer's wheel of lists, and spurious deadlock of a
  look-up from the timer's own thread.
- Quotas, notifications, settings, sharing, the database engine, sockets and the mounting of the file system.
