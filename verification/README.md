# PMTester in Dafny

PMTester checks crash consistency of persistent-memory file systems. A workload runs on one device
while its file-system calls and its physical stores are recorded; the stores are replayed on a second
device, and the two trees are compared. This project models the algorithms of that pipeline and proves
what each stage promises, and where the code keeps its promise only on part of its inputs, exactly
which part.

| file | what it models |
|---|---|
| `Bytes.dfy` | bytes, big- and little-endian integers, storing a byte range in a file or a memory |
| `Posix.dfy` | an open file with short, stalled and failing transfers |
| `Workload.dfy` | `WriteData` and `WriteDataMmap` (src/wrapper/workload.cpp) |
| `DiskMod.dfy` | the change record and its serialised form (src/wrapper/DiskMod.cpp) |
| `ChangeLog.dfy` | writing the log, reading it back, grouping by checkpoint (src/wrapper/wrapper.cpp, src/utils/Tester.cpp) |
| `Kernel.dfy`, `LogSemantics.dfy` | the file system under the wrapper, and what a log says about it |
| `Recorder.dfy` | the recording wrapper (src/wrapper/wrapper.cpp) |
| `Unsynced.dfy`, `Steps.dfy` | files a log does not determine everywhere; what a step of a workload adds to log and files |
| `Session.dfy` | the passthrough wrapper and whole runs through both (src/wrapper/wrapper.cpp) |
| `PmemTrace.dfy`, `PmemReplay.dfy` | the write tracker and the replayer (personal_plugins/panda/plugins) |
| `FileTree.dfy`, `DiskContents.dfy` | the tree checker (src/checker/DiskContents.cpp) |

The main results, and the conditions the code turned out to need:

- **Test data.** `WriteData` puts the pattern in place under every schedule of short writes, with the
  unsigned arithmetic and masks of the code; it meets the header's promise for every initial content if
  and only if `offset + size <= 2^32`. `WriteDataMmap` meets it, on files of a given length, if and only
  if the file holds the request and either the offset is page-aligned and `size <= 2^32 - 4096`, or the
  request ends at the first page boundary. Its copy loop ends if and only if the length to copy is at
  most `2^32 - 4096`; beyond that the unsigned counter returns to 0 for ever. It returns with the file
  `WriteData` leaves, on files that hold the request, if and only if the request meets that condition and
  also ends within 32 bits.
- **Change log.** The size calculator agrees with the writer for every type but removals, whose range is
  written past the buffer; so a log goes out in full if and only if it holds no removal and no change
  whose length truncates to a negative int, device errors aside. What is serialised is read back, through
  any short writes and reads, complete, in order and grouped by checkpoint. A log cut inside a record
  yields the records before the cut; behind the 8-byte size field that is an error, and inside the field
  it is one whatever the buffer held if and only if a byte of the field that is there is not 0.
- **Recorder.** A run through the recorder returns what it returns through the passthrough wrapper and
  leaves the same file system whenever, at each write, fallocate and range sync, the recorder knows the
  descriptor and a stat of the path it has for it succeeds, be it the right path or not. The recorded
  paths follow the kernel's through every call but a rename. They survive one to another name, if it
  succeeds, if and only if the old path occurs in them only as a whole or as a leading directory, and if it
  fails, if and only if the old path does not occur in them at all. On a run whose renames keep the paths and
  change nothing, whose writes and fallocates go to the file that has the recorded path, at the recorded
  place, without inserting a range, and whose synced memory is what the file holds, applying the log to
  the initial files gives the final files, but for bytes stored through a mapping and neither synced nor
  overwritten since. A workload that appends nowhere, inserts and renames nothing, deletes no open file and
  syncs what its files hold makes such runs. A log without removals still says the same after it was saved
  and loaded. The record of a write is right for all data if and only if nothing was written or it landed
  where the recorder looked, which an unlinked file and O_APPEND prevent; the record of a sync is right if
  and only if the file holds the synced memory there, or there is no such file, or nothing to sync. A
  rename that changes anything leaves the log incomplete.
- **Record and replay.** Both devices lie in the memory of one machine. Replaying the log of a trace
  reproduces the recorded device byte for byte, at every point of the trace from the first record on, and
  touches nothing else, including the extra pass the replay loop makes at the end of its input, if no
  store crosses an end of the range and none reaches into the replay device. For a single store the exact
  condition is proved, the layout included in which the replay device ends the memory. A log torn inside
  a record is replayed as its whole records, whatever they are as long as there is one, if and only if
  that record is a flush or a fence or at most its first 8 bytes were written. Without a whole record, a
  piece is harmless if and only if it is a flush or a fence of which more than 8 bytes were written.
- **Tree checker.** Flattening is faithful, comparison is exact and tells kinds of nodes apart,
  `deleteFiles` works on a non-empty directory if and only if no directory below is empty, and the sanity
  check passes if and only if no directory below the root has a subdirectory `_dummy`.

How the outside world is modelled: `Posix.File` chooses every transfer size freely within its contract;
that a kernel answers a non-empty request with 0 bytes only finitely often, and that a size field is read
whole, are stated on the file. The wrapper's system calls are functions of a `World` whose `fate` fixes
errors, short writes and disk usage beforehand, so that two runs can be compared. A path is a byte string.

Where code and documentation differ, the model follows the code: src/wrapper/workload.h promises any
range; the layout comment in src/wrapper/DiskMod.cpp ends only checkpoints after the header, the code also
ends syncs there; the comment in src/utils/Tester.cpp speaks of the last checkpoint operation of a group,
the loop takes the first persisting one; `PassthroughCmFsOps::CmSyncFileRange` has no return statement.

## Model

| member | source | states |
|---|---|---|
| Workload.Masks | src/wrapper/workload.cpp:43-49 | on every 32-bit value the bitwise masks of the code are the rest and the multiple of 4096 |
| Workload.LowMask | src/wrapper/workload.cpp:62-63 | anding with a mask of k ones is the remainder modulo 2^k, for every number |
| Workload.HighMask | src/wrapper/workload.cpp:43-44 | anding with the complement of such a mask rounds down to a multiple of 2^k |
| Workload.RepeatedUnit | src/wrapper/workload.cpp:11-37 | repeating "abcdefghijklmnopqrstuvwxyz123456" is the pattern of the specification, for every repetition count |
| Workload.BlockIsRepeatedUnit | src/wrapper/workload.cpp:32-37 | the block is 128 repetitions of that unit and a terminating byte |
| Workload.TileStep | src/wrapper/workload.cpp:66-67 | a pwrite from the block at the phase of its file position extends the written pattern, across the 32-bit wrap too |
| Workload.PwriteBlock | src/wrapper/workload.cpp:66-71 | one possibly short pwrite advances the pattern by what it returns; an error changes nothing |
| Workload.WriteHead | src/wrapper/workload.cpp:56-73 | the unaligned start ends with the pattern up to the boundary, or up to the failing write |
| Workload.WritePages | src/wrapper/workload.cpp:77-88 | the full pages follow, whatever short writes split them |
| Workload.WriteTail | src/wrapper/workload.cpp:94-107 | the rest follows, no read leaving the block |
| Workload.WriteData | src/wrapper/workload.cpp:41-110 | success leaves at every requested position (modulo 2^32) the letter or digit of the unit that belongs to the position, failure an exact prefix of that; every other byte and the length are stated too; without device errors it succeeds |
| Workload.WriteDataMeetsRequest | src/wrapper/workload.h:6-8 | the header's promise holds for every initial content if and only if offset + size <= 2^32 |
| Workload.CopyPages | src/wrapper/workload.cpp:137-146 | however long it is watched, the mapped copy loop is done only if its counter can reach the length, and then the block is repeated over it; it is done after enough passes if nothing faults |
| Workload.CopyEndsExactly | src/wrapper/workload.cpp:137-146 | the unsigned counter of the loop reaches its length after some number of passes if and only if the length is at most 2^32 - 4096 |
| Workload.FirstPage | src/wrapper/workload.cpp:128-133 | the first copy fills the first page from the offset on |
| Workload.WriteDataMmap | src/wrapper/workload.cpp:112-155 | for every offset, size and file: a call that returns left the file alone (a failed mmap) or left, byte by byte, the unit in step with the position up to the first boundary and from its start behind it; where the promise is kept every requested position holds its byte and nothing else changed; it returns if the loop ends and no page faults; without device errors it reports 0 unless msync reaches past the mapping |
| Workload.WriteDataMmapMeetsRequest | src/wrapper/workload.h:10-12 | over all sizes, the call returns 0 (on a sound device) with the promised content, for every content of a given length, if and only if the file is long enough and the offset is aligned and the size at most 2^32 - 4096, or the request ends at the first boundary |
| Workload.MmapAgreesWithWriteData | src/wrapper/workload.cpp:41-155 | over all sizes, the mapped writer returns with the file WriteData leaves, for every content that holds the request, if and only if the request ends within 32 bits and is aligned and at most 2^32 - 4096 long, or ends at the first boundary |
| DiskMods.SizeAgreement | src/wrapper/DiskMod.cpp:12-52 | computed size and written size agree if and only if the type is not a removal, where the range is missing from the computed size |
| DiskMods.SerializeHeader | src/wrapper/DiskMod.cpp:143-153 | type and options big-endian at the offset, every other byte of the buffer unchanged |
| DiskMods.SerializeChangeHeader | src/wrapper/DiskMod.cpp:155-170 | path, terminator and directory flag at the offset, the rest unchanged, and their length returned |
| DiskMods.SerializeDataRange | src/wrapper/DiskMod.cpp:172-202 | location, length and the data unless only a range is kept, or a write past the buffer exactly when they do not fit; the length returned as an int |
| DiskMods.SerializeChange | src/wrapper/DiskMod.cpp:106-138 | the part after the header fills the buffer to its end and fails exactly when the length truncates to a negative int; a removal, and nothing else, runs past the buffer |
| DiskMods.Serialize | src/wrapper/DiskMod.cpp:81-141 | the buffer is exactly the record, each byte written, with the reported size; null if and only if the data range truncates to a negative int length; past the buffer if and only if the change is a removal |
| DiskMods.LengthOverflowsIs | src/wrapper/DiskMod.cpp:172-202 | the changes it returns null for: those with data whose range size lies in the upper half of the unsigned 32-bit numbers, modulo 2^32 |
| DiskMods.RecordLayout | src/wrapper/DiskMod.cpp:54-72 | where each field of a record lies and as which number: size, type and options, path, terminator, flag, location before length, data, and which types end where |
| Bytes.BigEndianValue | src/wrapper/DiskMod.cpp:143-183 | the number that two or eight bytes of a record stand for, byte by byte |
| DiskMods.RecordDecodes | src/wrapper/DiskMod.cpp:209-304 | round trip: a record decodes to its change less the fields a record does not keep, and serialising that again gives the same bytes |
| DiskMods.CanonicalFields | src/wrapper/DiskMod.cpp:209-304 | which fields come back from a record of which type, and that all others are those of a fresh change |
| DiskMods.DecodesUniquely | src/wrapper/DiskMod.cpp:54-72 | the format is unambiguous: bytes that decode, decode in one way only, even without the size field |
| DiskMods.CStringStops | src/wrapper/DiskMod.cpp:246-256 | appending the character buffer appends exactly the characters gathered in it |
| DiskMods.ReadPath | src/wrapper/DiskMod.cpp:233-258 | the chunked loop returns the terminated string of any length and stops behind its terminator |
| DiskMods.ReadRange | src/wrapper/DiskMod.cpp:268-278 | the two integers come back and the data lies behind them |
| DiskMods.DiskMod.Reset | src/wrapper/DiskMod.cpp:310-320 | every field is back to its default |
| DiskMods.DiskMod.DeserializeRange | src/wrapper/DiskMod.cpp:268-303 | the fields from the location on are those encoded |
| DiskMods.DiskMod.Deserialize | src/wrapper/DiskMod.cpp:209-304 | the object becomes the change the bytes encode, whatever it held before |
| ChangeLog.WriteWhole | src/wrapper/wrapper.cpp:624-636 | all bytes are appended, or after an error a prefix of them |
| ChangeLog.SerializeAll | src/wrapper/wrapper.cpp:638-653 | success is the records in order; without device errors it stops exactly at the first change that cannot be written, a removal or one of negative int length, a prefix written |
| ChangeLog.GroupsKeepAll | src/utils/Tester.cpp:310-321 | grouping keeps every change but checkpoints, in order, from any previous groups |
| ChangeLog.GroupCount | src/utils/Tester.cpp:310-321 | one group a checkpoint and one more if the log starts with something else |
| ChangeLog.SelectedGroup | src/utils/Tester.cpp:223-226 | the group before the last exists if and only if something precedes the last checkpoint, and is what lies between the last two checkpoints |
| ChangeLog.SelectedBetween | src/utils/Tester.cpp:223-226 | the same told by the checkpoints: what lies between the last and the one before it, or the start |
| ChangeLog.HeaderReadExact | src/utils/Tester.cpp:278-287 | a size field read short is right for every leftover buffer content if and only if all 8 bytes were read |
| ChangeLog.CutSizeFieldExact | src/utils/Tester.cpp:278-290 | a size field that breaks off reads as more than itself for every leftover buffer content, and so ends in an error, if and only if one of the bytes there is not 0 |
| ChangeLog.ReadRest | src/utils/Tester.cpp:292-302 | the inner loop fills the buffer behind the size field through any short reads, and fails exactly when the file ends first |
| ChangeLog.ReadChange | src/utils/Tester.cpp:276-302 | tells end of file, a whole record and a cut record apart, and returns the whole record; only a cut size field of zeros can read as a size too small for a record |
| ChangeLog.Tester.AddRecord | src/utils/Tester.cpp:304-321 | a whole record is appended to the groups as the change it encodes |
| ChangeLog.Tester.GetChangeData | src/utils/Tester.cpp:273-325 | every whole record before a cut is kept in order, wherever the cut is; success exactly when the log ends at a record boundary, read errors aside; reading leaves its buffers at most when a size field was cut in its leading zeros |
| ChangeLog.Tester.SelectChange | src/utils/Tester.cpp:226-268 | nothing if and only if the selected group has only creations, metadata, mapped, metadata-changing, removal and checkpoint changes; otherwise its first fsync, sync, data or range-sync change |
| ChangeLog.SaveAndLoad | src/main.cpp:345-380 | end to end: what was serialised is loaded complete, in order, in its checkpoint groups; without device errors that happens exactly when every change can be written |
| LogSemantics.FallocateOptsExact | src/wrapper/wrapper.cpp:442-465 | the recorded options reproduce the call on every file if and only if the mode inserts no range |
| LogSemantics.SyncedRangeCatchesUp | src/wrapper/wrapper.cpp:382-387 | splicing a synced range into a copy that differs only there makes it equal |
| Recorder.RenameExact | src/wrapper/wrapper.cpp:487-499 | the rename loop follows the kernel on a path if and only if the old path occurs in it only whole or as a leading directory |
| Recorder.RenameSafeIs | src/wrapper/wrapper.cpp:487-499 | those paths told without searching: the old path followed by "/", itself, or any path that has it nowhere |
| Recorder.RenameIdle | src/wrapper/wrapper.cpp:487-499 | the loop leaves a path alone if and only if the old path does not occur in it |
| Recorder.RenameReplacesFirst | src/wrapper/wrapper.cpp:487-499 | on every path: the old path itself becomes the new one, otherwise its first occurrence is replaced, and without one nothing changes |
| Kernel.RenameMovesAll | src/wrapper/wrapper.cpp:81-83 | the rename of the model loses, merges and invents no file |
| Recorder.StoreIsRecorded | src/wrapper/wrapper.cpp:256-276 | applying the recorded write to the files before gives the files after, if the data landed where recorded |
| Recorder.WriteRecordExact | src/wrapper/wrapper.cpp:242-276 | for every number of bytes, the record of a write is right for all data if and only if nothing was written or the data landed in the recorded file at the recorded place |
| Recorder.RecordCmFsOps.constructor | src/wrapper/wrapper.cpp:134-136 | recording starts with maps and log empty and right |
| Recorder.RecordCmFsOps.CmMkdir | src/wrapper/wrapper.cpp:143-158 | the kernel's result, and a creation with this path and the directory flag on record, all other fields empty |
| Recorder.RecordCmFsOps.CmOpenCommon | src/wrapper/wrapper.cpp:160-193 | the descriptor is remembered; a creation or truncation is recorded, nothing else |
| Recorder.RecordCmFsOps.CmOpen | src/wrapper/wrapper.cpp:195-222 | the kernel's result and state, the new descriptor tracked, a creation or a truncation on record exactly when there was one, the log still determining the files |
| Recorder.RecordCmFsOps.CmLseek | src/wrapper/wrapper.cpp:224-227 | the kernel's seek, nothing recorded |
| Recorder.RecordCmFsOps.CmWrite | src/wrapper/wrapper.cpp:229-281 | the kernel's write if the recorded path exists, else -1 and no write; on record is every field: data or, exactly when the length of the recorded file changed, data and metadata; place, bytes and stat; right under the condition that `Recorder.WriteRecordExact` shows to be exact |
| Recorder.RecordCmFsOps.CmPwrite | src/wrapper/wrapper.cpp:283-333 | the same for a write at a given offset, with the same exact condition |
| Recorder.RecordCmFsOps.CmMmap | src/wrapper/wrapper.cpp:335-356 | the remembered mappings stay exactly the live shared writable ones |
| Recorder.RecordCmFsOps.CmMsync | src/wrapper/wrapper.cpp:358-393 | one data change for the mapping around the address, in whatever order they are searched, with its path, place, bytes and async or sync option; none elsewhere |
| Recorder.MappingsApart | src/wrapper/wrapper.cpp:366-369 | at most one remembered mapping holds an address |
| Recorder.MappingNumbersExact | src/wrapper/wrapper.cpp:352-354 | 32-bit offset and length give the right mapping and file position for every address in it if and only if both fit |
| Recorder.SyncCatchesUp | src/wrapper/wrapper.cpp:370-388 | a log that lacks stores through a mapping is complete again once their range is synced |
| Recorder.SyncRecordExact | src/wrapper/wrapper.cpp:370-388 | the record of a sync leaves right files right if and only if the recorded file holds the memory at the recorded place, or is no regular file, or the memory is empty |
| Recorder.RecordCmFsOps.CmMunmap | src/wrapper/wrapper.cpp:395-408 | an unmapped mapping is forgotten, the others kept |
| Recorder.RecordCmFsOps.CmFallocate | src/wrapper/wrapper.cpp:410-470 | an unknown descriptor gets an empty path and -1; otherwise the kernel's call, recorded with the options of the mode's leading bit, as metadata too exactly when size or blocks changed, rightly unless it inserts a range |
| Recorder.RecordCmFsOps.FallocateChange | src/wrapper/wrapper.cpp:429-465 | the change carries the options of the mode's leading bit, the range, and metadata if size or blocks changed |
| Recorder.FallocateIsRecorded | src/wrapper/wrapper.cpp:429-467 | applying the recorded range change to the files before gives the files after |
| Recorder.RecordCmFsOps.CmClose | src/wrapper/wrapper.cpp:472-482 | the descriptor is forgotten exactly when the kernel closed it |
| Recorder.RecordCmFsOps.CmRename | src/wrapper/wrapper.cpp:484-501 | the kernel's result, and every recorded path rewritten; exactly when right paths are right afterwards, for success and for failure; the log is complete exactly when nothing moved |
| Recorder.RecordCmFsOps.CmUnlink | src/wrapper/wrapper.cpp:503-516 | the kernel's result, and the removal on record with every field |
| Recorder.RecordCmFsOps.CmRemove | src/wrapper/wrapper.cpp:518-531 | the same for remove, directories included |
| Recorder.RecordCmFsOps.CmFsync | src/wrapper/wrapper.cpp:533-561 | a successful sync is recorded under the descriptor's path |
| Recorder.RecordCmFsOps.CmSync | src/wrapper/wrapper.cpp:563-570 | a sync is recorded without a path |
| Recorder.RecordCmFsOps.CmSyncFileRange | src/wrapper/wrapper.cpp:588-608 | the kernel's result, but -1 and no record once the recorded path is gone |
| Recorder.RecordCmFsOps.CmCheckpoint | src/wrapper/wrapper.cpp:610-622 | the checkpoint always succeeds and is recorded |
| Recorder.RecordCmFsOps.Serialize | src/wrapper/wrapper.cpp:638-653 | any recorded log goes out as its records in order, up to the first removal or change of negative int length |
| Session.PassthroughCmFsOps.Do | src/wrapper/wrapper.cpp:661-753 | the bare system call and its result, except that the range sync returns anything |
| Session.Record | src/wrapper/wrapper.cpp:138-622 | every operation whose descriptor is known and whose recorded path a stat finds is, through the recorder, the bare system call, with the maps and the records it adds stated; right paths stay right unless a rename breaks them, and a complete log stays complete if the call is accounted for |
| Steps.StepIsSound | src/wrapper/wrapper.cpp:138-622 | the recorder's maps, as its own rules rewrite them, stay in step with the kernel's through every operation but a rename that breaks a path |
| Unsynced.ChangeKeepsAgreement | src/wrapper/wrapper.cpp:370-388 | a recorded change applied to two file systems alike but for some places leaves them alike but for those it does not settle: writes, syncs, zeroing, truncation, creation and removal settle places, cutting out a range moves them |
| Unsynced.LogKeepsAgreement | src/wrapper/wrapper.cpp:370-388 | the same for any log of such changes |
| Steps.CallIsRecorded | src/wrapper/wrapper.cpp:138-622 | a call that is accounted for: its records applied to the files before give the files after |
| Steps.StepKeepsAgreement | src/wrapper/wrapper.cpp:138-622 | stores through mappings included, a log right outside some places is right, after any step, outside those then unsynced |
| Steps.SyncSettles | src/wrapper/wrapper.cpp:358-393 | a successful sync in a remembered mapping settles exactly its range of the recorded file |
| Steps.StoreThenSync | src/wrapper/wrapper.cpp:358-393 | a store through a mapping whose numbers fit 32 bits and whose file keeps its path, followed by its sync, leaves nothing unsynced |
| Steps.UnsyncedNeedsStores | src/wrapper/wrapper.cpp:358-393 | without stores through mappings nothing is ever unsynced |
| Session.RunBoth | src/tests/BaseTestCase.cpp:18-28 | over every run whose descriptors are known and whose recorded paths a stat finds, right or not: same results and same file system through both wrappers, and the maps and the log are those of the steps. If the renames keep the paths, the maps stay in step; if moreover all writes and fallocates land where recorded in live files, no range is inserted, no rename takes effect and syncs are coherent, the log determines the final files outside the unsynced places, and everywhere if there are none |
| Session.RunOrdinary | src/tests/BaseTestCase.cpp:18-28 | a run that appends nowhere, inserts and renames nothing, deletes no open file, syncs what the files hold and stores through no mapping: nobody notices the recorder, and its log gives the final files |
| Steps.OrdinaryRunIsAccounted | src/wrapper/wrapper.cpp:138-622 | such runs, mapped stores included, meet all the conditions of `Session.RunBoth` |
| Session.CanonicalKeepsEffect | src/wrapper/DiskMod.cpp:209-304 | what a record keeps of a change is all that bears on the files |
| Session.LoadedLogHasEffect | src/utils/Tester.cpp:304-321 | the loaded log without its checkpoints has the effect of the recorded one |
| Session.SaveAndLoadLog | src/tests/BaseTestCase.cpp:28-39 | what the checker loads has the effect of the recorded log, and turns the initial files into the final ones whenever that does; without device errors it is loaded exactly when every change can be written |
| PmemTrace.WriteTracker.LogOutput | personal_plugins/panda/plugins/writetracker/writetracker.cpp:21-41 | one record of the type is appended to the stream |
| Bytes.LittleEndianValue | personal_plugins/panda/plugins/writetracker/writetracker.cpp:21-41 | the number that four or eight bytes of a trace stand for, byte by byte |
| PmemTrace.WriteTracker.MemWriteCallback | personal_plugins/panda/plugins/writetracker/writetracker.cpp:43-49 | a store is logged, as these bytes: pc, 0, address relative to the range, size, data, exactly when its first byte lies in the range |
| PmemTrace.WriteTracker.FlushCallback | personal_plugins/panda/plugins/writetracker/writetracker.cpp:116-126 | a flush in range is logged as these bytes: pc, 1, address relative to the range; no other is |
| PmemTrace.WriteTracker.FenceCallback | personal_plugins/panda/plugins/writetracker/writetracker.cpp:106-110 | every fence is logged as these bytes: pc, 2 |
| PmemTrace.WriteTracker.Track | personal_plugins/panda/plugins/writetracker/writetracker.cpp:195-203 | the stream is the encoded log of the whole run, in order, and reads back as the events in range, pc included, each relative to the range |
| PmemTrace.LogTellsEvents | personal_plugins/panda/plugins/writetracker/writetracker.cpp:20-49 | round trip: parsing the log of any run gives the events in range, relative to it, and no others, in order |
| PmemTrace.Replayer.Replay | personal_plugins/panda/plugins/replayer/replayer.cpp:24-59 | on any bytes and any initial variables, the memory the loop semantics gives |
| PmemReplay.PassAppliesRecord | personal_plugins/panda/plugins/replayer/replayer.cpp:30-57 | a pass over a whole record applies it and leaves the stream behind it, whatever the variables held |
| PmemReplay.TornRead | personal_plugins/panda/plugins/replayer/replayer.cpp:31-38 | a read of a field that breaks off replaces the front of the old bytes, keeps their rest, and fails the stream |
| PmemReplay.StalePass | personal_plugins/panda/plugins/replayer/replayer.cpp:30-57 | the extra pass at the end of the input applies the record its variables hold once more |
| PmemReplay.LastPass | personal_plugins/panda/plugins/replayer/replayer.cpp:30-57 | after the last whole record the loop changes nothing and ends, also behind a piece of a flush or a fence |
| PmemReplay.ReplayIsExact | personal_plugins/panda/plugins/replayer/replayer.cpp:24-57 | a non-empty log is applied record by record exactly, also with up to 8 bytes of another record, or any piece of a flush or a fence, behind it |
| PmemReplay.TornLog | personal_plugins/panda/plugins/replayer/replayer.cpp:30-57 | for every next record and cut: whatever non-empty log came before, it is replayed as its whole records if and only if the next is no store or at most 8 bytes of it are there |
| PmemReplay.HarmfulTear | personal_plugins/panda/plugins/replayer/replayer.cpp:33-45 | for every store and every longer tear of it, a log before it that makes old data go to a flushed address |
| PmemReplay.EmptyLogExact | personal_plugins/panda/plugins/replayer/replayer.cpp:24-33 | a log of any records and a harmless piece behind them is replayed as its records, whatever the variables held, if and only if there is a record or the piece has more than 8 bytes |
| PmemReplay.TornFirstRecord | personal_plugins/panda/plugins/replayer/replayer.cpp:24-45 | for every record and cut: a log that is only a piece of it changes nothing, whatever the variables held, if and only if it is no store and more than 8 bytes are there |
| PmemReplay.StepIsExact | personal_plugins/panda/plugins/writetracker/writetracker.cpp:43-49 | in one memory, a store of given address and size keeps the devices synchronised and the rest untouched, whatever its data and the memory, if and only if it is confined to the range or misses both devices (or runs over where the replay device ends the memory) |
| PmemReplay.TraceConditionExact | personal_plugins/panda/plugins/writetracker/writetracker.cpp:43-49 | what the results on traces ask of each store is sufficient for it, and, unless the replay device ends the memory, exactly what it needs |
| PmemReplay.TraceInSync | personal_plugins/panda/plugins/writetracker/writetracker.cpp:43-49 | a trace without crossing stores keeps a recorded device and any memory its log is applied to synchronised |
| PmemReplay.RecordReplay | personal_plugins/panda/plugins/replayer/replayer.cpp:11-60 | refinement, byte for byte, in one memory: after the trace, replaying the log cut at any event gives the recorded device at that point and changes nothing else |
| PmemReplay.RecordThenReplay | src/main.cpp:292-420 | tracking a run of the guest and then replaying its log in the same memory makes the two devices equal and changes nothing else |
| FileTree.RelInjective | src/checker/DiskContents.cpp:185-189 | the relative path spelling is unambiguous |
| DiskContentsModel.DiskContents.GetContents | src/checker/DiskContents.cpp:172-222 | exactly one entry for every node below the directory, in any reading order, others kept |
| DiskContentsModel.FlattenedEntry | src/checker/DiskContents.cpp:190-216 | the entry of a node has its stat, and its directory entry if it is a directory, its digest if it is a regular file by its mode |
| DiskContentsModel.FlattenFaithful | src/checker/DiskContents.cpp:172-222 | two trees flatten alike if and only if they have the same paths and, mode and hence kind included, the same compared attributes |
| DiskContentsModel.SameTreeIsMutual | src/checker/DiskContents.cpp:244-297 | the comparison of trees has the same verdict from either side, and trees that compare equal have the same kind of node everywhere |
| DiskContentsModel.DiskContents.CompareMaps | src/checker/DiskContents.cpp:244-297 | true if and only if keys, the five directory entry fields, the eight stat fields and, for regular files by their mode, the digests agree, though one side is iterated; something is reported exactly when false |
| DiskContentsModel.DiskContents.CompareDiskContents | src/checker/DiskContents.cpp:228-298 | on different disks true if and only if the two trees have the same paths and at each the same eight stat fields, the same digest for regular files and the same five entry fields for directories; on one disk true without looking |
| DiskContentsModel.DiskContents.IsEmptyDirOrFile | src/checker/DiskContents.cpp:436-454 | true if and only if not a directory with an entry besides the dots |
| DiskContentsModel.DiskContents.DeleteFiles | src/checker/DiskContents.cpp:468-518 | a non-empty directory is emptied if and only if no directory below it is empty; in every case a sub-tree remains |
| DiskContentsModel.NoEmptyDirBelowIs | src/checker/DiskContents.cpp:468-518 | its condition in terms of paths and mode bits alone: every directory strictly below has a path one name longer |
| DiskContentsModel.KeptElsewhere | src/checker/DiskContents.cpp:468-518 | whatever its outcome, it changes no node it leaves and removes none outside the path |
| DiskContentsModel.DiskContents.MakeFiles | src/checker/DiskContents.cpp:520-535 | works if and only if no directory below the root has a subdirectory "_dummy"; then every such directory has a "_dummy" that is none, and nothing else is new or changed |
| DiskContentsModel.DiskContents.CreateDummy | src/checker/DiskContents.cpp:523-532 | one such file, in the directory a flattened path spells |
| DiskContentsModel.DummiesFill | src/checker/DiskContents.cpp:520-535 | afterwards no directory below the root is empty |
| DiskContentsModel.DiskContents.SanityChecks | src/checker/DiskContents.cpp:537-554 | passes if and only if no directory below the root has a subdirectory "_dummy", and then only the root is left |

## Left out

- DiskMods.Serialize: takes no change inside a directory, which the code does not implement; what a write past the buffer destroys, and allocation failure, are not modelled.
- DiskMods.DiskMod.Deserialize: takes bytes that hold a record; the code reads without any bound.
- ChangeLog.Tester.GetChangeData: takes size fields read whole while they last (`ChangeLog.HeaderReadExact` says why); what follows when reading leaves a buffer is not modelled.
- Workload.WriteDataMmap: a loop that does not end is watched for any number of passes; what a fault leaves in the file is not modelled, nor what lies in memory past the mapping.
- Recorder.RecordCmFsOps.CmMunmap: only whole mappings are unmapped, as the code assumes; a store that leaves its mapping faults and is taken to change nothing.
- Session.RunBoth: covers runs that use descriptors the recorder knows, under paths a stat finds; on an unknown descriptor it throws or invents an entry, and it refuses calls whose recorded path is gone. Positions and sizes stay within the 63 bits of a file offset. Of the log of a run whose renames break a path or in which some call is not accounted for (a write moved by O_APPEND or into an unlinked file, an inserted range, an effective rename, a sync of memory that is not the file's) only its records are stated, not what they say of the files.
- PmemReplay.RecordReplay: one direction only for whole traces, because a store that crosses an end can be made up for by a later one; `PmemReplay.StepIsExact` has both directions for one store (flushes and fences never change memory).
- Hard links, symbolic links, mknod, anonymous mappings, O_EXCL, permissions and block alignment in the kernel model.
- Integer widths are explicit where the code depends on them (unsigned sums in the test writer, int results of the serialiser, 32-bit mapping numbers, 64-bit replay addresses) and unbounded elsewhere.
- The checker branches on an entry's d_type when it reads and on st_mode when it compares; the two are taken to agree.
- compare_entries_at_path and compare_file_contents, and the md5 command: attributes and digests are given values.
- A relative path is taken with the checker's base path and its mount point equal, as the tester sets them.
- The decoding of flush instructions in check_flush: flushes and fences are events, and never affect the replayed memory.
- src/main.cpp beyond the order of its steps, sockets, class loading, result counters, scripts and workloads: orchestration and printing.
