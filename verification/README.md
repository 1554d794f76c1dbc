# Records in frames: a verified model of seekzstdsep

seekzstdsep keeps a stream of records in a seekable zstd file whose frames all hold the same number of
records, so that a record index is turned into a frame by dividing. No index is stored: the count is
read off frame 0. Everything fast in the library rests on that framing, and breaking it gives wrong
answers rather than errors.

This project models the library's core as Dafny classes, functions and state machines, and proves:

- **Record boundaries.** What a finder must satisfy for a walk to mean anything, that the separator,
  length-prefixed, fixed and MessagePack finders satisfy it, and that the MessagePack finder measures
  exactly the encodings of well-formed values (`Records`, `Finders`, `MsgPack`).
- **Reading.** The sliding, doubling window over a source that returns reads of any size; range reads
  placed in saturating 64-bit arithmetic; one reader used for any history of calls; an iterator taken
  from at both ends in any order; a reader opened from a later frame, which reads the frames in larger
  groups and numbers records anew (`Window`, `Cursor`, `Placement`, `Ranges`, `Reader`, `Iter`,
  `Regroup`, `Reopen`, `Witness`).
- **Verifying reads.** Exactly which files a verifying read accepts, and which frame a refusal names
  (`Watch`, `Verify`, `VerifyFrom`).
- **Writing.** Both compressors' loop, the retry around them, and the framing they leave (`Stream`,
  `Framing`, `Compressor`, `Retry`).
- **Editing.** Append with its results handed from call to call, truncate, copy a range, append frames,
  and dividing a file and joining it again (`SeekableFile`, `FrameReader`, `Cutter`, `AppendPlan`,
  `Append`, `AppendChain`, `EditPlan`, `Edit`).
- **Replacing a file.** The lock, the private copy and the rename over every interleaving of writers,
  with failures and forced terminations anywhere between their steps (`FileUpdate`).

A file is *uniform* when every frame but the last holds exactly `n` whole records and nothing else, and
the last holds at most `n` (`Frames.Uniform`, docs/format.md). A finder is a subset type of the functions
that keep its contract, so every theorem is about every finder. Methods that the source writes as loops
over mutable state are methods and classes here, each proved against a function of its input; the
theorems are about those functions.

Run `dafny verify dfyconfig.toml`.

## Model

| member | source | states |
|---|---|---|
| Finders.SeparatorKeepsContract | src/find.rs:54-57 | a separator's finder answers inside the data, never an empty record, and its answer depends on no byte past the record |
| Finders.Le32KeepsContract | src/find.rs:70-73 | the same of records that begin with their length in 32 bits |
| Finders.FixedKeepsContract | src/find.rs:90-92 | the same of records of one size |
| Finders.MsgpackKeepsContract | src/find.rs:108-123 | the same of MessagePack values |
| MsgPack.WalkMsgpack | src/find.rs:108-123 | the loop over owed values ends on every input and answers what measuring the value recursively does, 64-bit overflow included |
| MsgPack.EncodedIsMeasured | src/find.rs:126-169 | every well-formed value, whatever follows it, is measured exactly |
| MsgPack.PrefixIsNotYet | src/find.rs:108-123 | no strict prefix of an encoded value is taken for a record |
| MsgPack.MeasuredIsEncoded | src/find.rs:126-179 | what is measured as one value is the encoding of a well-formed value |
| Records.WholeJoins | src/record.rs:31-51 | data that ends at a record end joins what follows without changing the records of either, for a separator that overlaps itself too |
| Records.RecordsOfFlatten | src/record.rs:31-45 | whole records written one after the other are found again, and nothing is left over |
| Records.WholeUpToIffBound | src/record.rs:49-51 | a prefix ends whole exactly where a record of the whole ends |
| Window.Window.Next | src/record.rs:556-605 | whatever sizes the source reads in, the next run is the next records of the region, every one that ends in the window or as many as are wanted; it is refused only where a frame end falls inside a record |
| Window.Window.WalkFrom | src/record.rs:287-298 | a walk goes on from where it stands or from a record still buffered, and says how many it still passes |
| Window.Window.CountRecords | src/record.rs:936-942 | counts every record left of the region exactly when every frame end inside it is a record end, and is refused otherwise |
| Window.Window.FinalRecord | src/record.rs:266-278 | takes the unterminated bytes once the source is spent, and leaves nothing |
| Cursor.Cursor.Next | src/record.rs:491-553 | one record after a skip is decided by the region alone: the record, nothing, or one of the refusals |
| Cursor.Cursor.WriteTo | src/record.rs:953-969 | a range written from a region is decided by the region alone, however the window moved |
| Placement.DivisionIsExact | src/reader.rs:121-148 | where the counts fit 64 bits, saturating multiplication and division place an index as exact division does |
| Placement.RequestIsExact | src/reader.rs:121-148 | a range request starts at the frame its first record is in, skips what precedes it there, spans whole frames as far as it can reach, and is refused exactly past every frame |
| Placement.AllInTheirFramesIff | src/reader.rs:121-148 | past that, every index of a file is placed in its own frame exactly where the first record of the last frame, times the number of frames, fits 64 bits |
| Placement.FarIsReached | src/reader.rs:121-148 | an input that is not: four million frames of two million records |
| Frames.SpanRecords | docs/format.md:88-117 | the records of any run of frames of a uniform file are the file's records from the first of its first frame on |
| Frames.RecordByDivision | docs/format.md:94-103 | record `i` of a uniform file is record `i % n` of frame `i / n` |
| Ranges.SpanIsClean | src/record.rs:345-355 | every frame end inside a run of frames of a uniform file is a record end, so the guard never stops a read of it |
| Ranges.WrittenIsRecords | src/reader.rs:1665-1687 | a range from any record on is exactly the records asked for or there are; only a finder's unfinished last record refuses one that would reach it |
| Reader.RecordReader.Record | src/reader.rs:1825-1866 | on any file, uniform or not: a lookup answers what its frame holds, except the unterminated record asked of a window that stands past it, and what a reader led astray is asked of the wrong frame; where the reader's frame ends are the file's own, the guard stops it exactly where that frame is torn and holds no such record |
| Reader.RecordReader.RecordsTo | src/reader.rs:1665-1687 | what is written is the range of the file's records, wherever the window stood before |
| Reader.RecordReader.PositionIter | src/reader.rs:765-781 | points the window at everything from the frame of the first record on; a refusal may leave the reader naming a frame its window is not at, and says exactly when |
| Reader.RunCalls | src/reader.rs:1492-1866 | any history of lookups, ranges and totals on one reader: every reply is given by the file and by whether the call before left the window past the unterminated record |
| Reader.HistoryIsFreshIff | src/reader.rs:82-96 | reply `j` is a freshly opened reader's exactly when it is not the unterminated record asked of a window that stands past it |
| Reader.FreshIsRecord | src/reader.rs:1825-1866 | for every index, a fresh reader of a uniform file answers the record there, or says which way there is none |
| Reader.TotalIsCount | src/reader.rs:1492-1512 | on a uniform file the total is the number of records, the unterminated one included; only a finder's unfinished last record refuses it |
| Reader.TailIsLostTheSecondTime | src/reader.rs:82-96 | a failure: the unterminated record looked up twice in a row is found once |
| Reader.RecordAfterRefusal | src/reader.rs:746-781 | a failure with its exact condition: after an iterator refused in the slot past every full frame, a whole record is found unless it lies in the frame looked up last at or past the last frame's count |
| Reader.FarRangeIsLost | src/reader.rs:121-148 | a failure: a range whose placement saturates to a frame before its own is refused, or handed out as empty where it begins with the next frame |
| Iter.RecordIter.Next | src/reader.rs:2066-2101 | one forward step of the iterator is one step of two ends closing in on the records between them |
| Iter.RecordIter.NextBack | src/reader.rs:2113-2196 | so is one backward step, which counts the frame it comes to first |
| Iter.Play | src/reader.rs:2066-2196 | any schedule of calls on both ends is answered as the two ends say |
| Iter.AnySchedule | src/reader.rs:2066-2196 | the forward calls take the records in order, the backward calls in reverse, none goes out twice, none is left out, and nothing follows the first empty answer |
| Iter.UnfinishedIsRefused | src/reader.rs:2024-2059 | a finder's unfinished last record, on any schedule: forward calls hand out the records in order, the first call that comes to that record from either end is refused, and nothing follows |
| Iter.PlaySchedule | src/reader.rs:1747-1796 | an iterator built at any record of a uniform file hands out the file's own records on any schedule |
| Iter.PlayAfterHistory | src/reader.rs:1781-2196 | any history of calls on the reader before the iterator is built changes its answers exactly where it left the window past the only record of the last frame and the first call is a backward one |
| Iter.LookupStands | src/reader.rs:2113-2196 | one lookup of the only record of the last frame leaves the window where such a backward call misses it |
| Iter.LookUpThenReverse | src/reader.rs:2113-2196 | a failure: that lookup and then a backward call, on a reader of such a file, answer what no fresh iterator does |
| Watch.Watch.Saw | src/record.rs:760-781 | told of a run of any size, the watch accepts or refuses each frame end inside it as the bytes of the region alone decide |
| Verify.WatchedWalk | src/record.rs:806-840 | a watched read comes to the same result however the walk divides the records into runs |
| Verify.VerifyFile | src/reader.rs:1329-1368 | a verifying read of everything comes to what the frames of the file decide |
| Verify.WholeFileVerified | src/reader.rs:601-720 | sound and complete: where the file ends at a record end the read raises nothing exactly when the file is uniform, and then it writes the file |
| Verify.UniformIsNeverRefused | src/reader.rs:601-720 | no uniform file is refused for its frames, whatever is left after its last record |
| Verify.RefusalNamesFrame | src/reader.rs:601-720 | a refusal names the first frame that is not full, or a last frame that holds too much |
| Verify.TailVerified | src/reader.rs:626-633 | where an unterminated record ends the file, a read that raises nothing proves it uniform exactly when that record begins in the last frame |
| Verify.StraddlingTailIsAccepted | src/record.rs:786-793 | a failure: one that begins earlier, across a frame end, is accepted |
| Regroup.OpenFromFrame | src/reader.rs:992-1092 | the groups a file is opened in from frame `s`: their rows and frame list are those of the joined frames, every row fits 32 bits, and only a missing frame or a count past 64 bits refuses |
| Regroup.GroupsAreUniform | src/reader.rs:1017-1059 | joining every `g` frames of a uniform file gives a uniform file of `n * g` records to a frame |
| Regroup.GroupSpan | src/reader.rs:1033-1058 | a run of groups holds the bytes of the frames it covers and starts where they do |
| Reopen.OpenFrom | src/reader.rs:992-1092 | what is opened is a reader of those groups, guarded by the frame ends of the whole file, and every theorem about a reader holds of it |
| Reopen.SharedEndsInside | src/reader.rs:54-66 | the physical frame ends it shares never stop a read of the groups of a uniform file |
| Reopen.RecordRenumbered | src/reader.rs:1080-1086 | record `i` from frame `s` on is record `n * s + i` of the file, for every grouping, except one slot of a finder's file, given exactly |
| Reopen.RangeRenumbered | src/reader.rs:1080-1086 | so is a range, exactly unless it begins in a frame the last group is short of |
| Reopen.SlotDiffers | src/reader.rs:992-1092 | a failure: in that slot the reopened reader refuses what the whole file answers with nothing |
| Reopen.MissingFrameDiffers | src/reader.rs:992-1092 | a failure: such a range is refused of the whole file as past its end, and of the reopened one for another reason or not at all |
| Reopen.TotalRenumbered | src/reader.rs:1492-1512 | the total is that of the file less the records before frame `s` |
| Reopen.WholeRecordsRenumbered | src/reader.rs:992-1092 | after any history of calls on it, a whole record is the one a fresh reader of the file has under its own number |
| Witness.FiveMakeThrees | src/reader.rs:1017-1058 | five frames of one record of 2^30 bytes, opened from frame 1, make groups of three and no other size, the last of them short |
| Witness.SlotIsRefused | src/reader.rs:992-1092 | with a byte left over at their end, the place after the last record is answered with nothing or refused |
| Witness.EndIsAccepted | src/reader.rs:992-1092 | with none, a range from there on is refused as past the end, or handed out as empty |
| VerifyFrom.PhysicalEndsAre | src/reader.rs:661-688 | a verifying read of it judges by the ends of the frames of the file, not by those of the groups |
| VerifyFrom.VerifyRest | src/reader.rs:1329-1352 | what such a read comes to: the guard stops it exactly where the first frame that is not full is torn, and otherwise it comes to what a read of those frames alone does |
| VerifyFrom.RestVerified | src/reader.rs:661-688 | sound and complete: it raises nothing exactly when the frames from `s` on are uniform |
| Stream.Stream.NextEnd | src/record.rs:99-103 | the next record end of what was not dropped, or none ends in what is buffered |
| Framing.FramedConserves | src/seekzstdsep_lib.rs:704-824 | the frames of an input joined are the input |
| Framing.CountFramesAreUniform | src/seekzstdsep_lib.rs:924-979 | cut at a count, they are uniform at it |
| Framing.AutoIsUniform | src/seekzstdsep_lib.rs:924-979 | frame 0 ends at the first record end at or past the target, no earlier one reaching it, or is everything where none does; and the frames are uniform at its count |
| Framing.AutoLosesIff | src/seekzstdsep_lib.rs:982-1042 | the older compressor drops bytes exactly where frame 0 is due at no more than twice the separator |
| Compressor.Progress.DrainsNothing | src/seekzstdsep_lib.rs:704-824 | what the loop drains to reclaim memory was compressed before |
| Compressor.Compress | src/seekzstdsep_lib.rs:704-824 | whatever sizes the input arrives in, a success is the frames of the input; a failure means more input than the limit, and a limit of zero refuses every input |
| Compressor.CompressSeparated | src/seekzstdsep_lib.rs:494-636 | the older compressor, given a separator, writes what its cuts decide |
| Compressor.CompressOld | src/seekzstdsep_lib.rs:494-636 | at a target past the separator it writes what the other does at the target and the separator together |
| Compressor.CompressBoth | src/seekzstdsep_lib.rs:643-665 | so both over one input write the same frames |
| Compressor.CompressTwice | src/seekzstdsep_lib.rs:704-824 | two runs over one input write the same frames, however their reads fall |
| Compressor.OutputConserves | src/seekzstdsep_lib.rs:704-824 | what is written holds the input, byte for byte |
| Compressor.OutputIsUniform | src/seekzstdsep_lib.rs:924-979 | what is written with one count for every frame is uniform at the count given, or at that of frame 0, which ends at the first record end at or past the target |
| Compressor.OldConserves | src/seekzstdsep_lib.rs:494-636 | the older compressor keeps every byte exactly when it drops no frame |
| Compressor.ShortRecordIsLost | src/seekzstdsep_lib.rs:982-1042 | a failure: a record no longer than twice the separator is dropped at a target it reaches |
| Retry.CompressWithRetry | src/seekzstdsep_lib.rs:313-400 | the retries end, and what is delivered is one attempt's output over the whole input |
| Retry.RetriedIsUniform | src/seekzstdsep_lib.rs:313-400 | it holds the whole input and is uniform at the last attempt's count |
| Retry.RetryZeroLimit | src/seekzstdsep_lib.rs:313-400 | a failure: with a limit of zero, however many attempts are made on an input that is not empty, every one asks for another |
| SeekableFile.StartsArePlaces | src/edit.rs:1554-1566 | adding up the rows of a seek table places every frame where it is |
| FrameReader.FrameReader.Walk | src/edit.rs:1495-1508 | the records of a frame, and whether it ends whole, which an empty one does not |
| Cutter.Cutter.NextGroup | src/edit.rs:1097-1113 | the next `n` records, or that what is left cannot fill a group |
| AppendPlan.LastDataMeans | src/edit.rs:1394-1400 | the last data frame is the last one not empty, and the content ends with it |
| AppendPlan.AppendIsUniform | src/edit.rs:551-785 | an append leaves the file uniform wherever the frames before the last data frame were full |
| AppendPlan.AppendConserves | src/edit.rs:551-785 | the file then holds what it held, the separator where one was needed, and the data |
| AppendPlan.FramesBeforeUntouched | src/edit.rs:551-785 | no compressed frame before the last data frame changes |
| AppendPlan.ResultIsTruthful | src/edit.rs:402-416 | the result returned describes the file left |
| AppendPlan.PriorChangesNothing | src/edit.rs:411-416 | a truthful result handed in decides nothing an append would not have decided by reading |
| Append.ReadPlan | src/edit.rs:551-785 | what is decided before the first write depends on the file, the data and what was asked for, however the data arrives |
| Append.AppendRecords | src/edit.rs:449-499 | a refusal leaves the file as it was; otherwise the file and the result are those decided |
| AppendChain.AppendAll | src/edit.rs:379-382 | a run of appends, each given the last one's result or not, leaves what the chain says |
| AppendChain.ChainIsSound | src/edit.rs:379-416 | along any chain, what is in hand describes the file |
| AppendChain.ReuseChangesNothing | src/edit.rs:379-416 | a chain that hands every result on leaves the file a chain that hands none on leaves |
| AppendChain.AppendTwice | src/edit.rs:529-547 | files alike, data alike: the files stay alike and the results are the same |
| EditPlan.TruncateIsPrefix | src/edit.rs:124-162 | a truncation of a uniform file keeps exactly its first records, in full frames |
| EditPlan.RangeIsExact | src/edit.rs:1346-1388 | of any count of records in 64 bits, a range of frames is accepted exactly when it may be asked for, or when its end is past 64 bits and the count is the last 64-bit number |
| EditPlan.RangeIsAskable | src/edit.rs:1346-1388 | no file a seek table describes holds that many, so of every file a range is accepted exactly when it may be asked for |
| EditPlan.RangeHolds | src/edit.rs:1346-1388 | the frames named hold exactly the records asked for |
| EditPlan.CopyIsSlice | src/edit.rs:1037-1074 | a copied range is that slice of the records, aligned where alignment is required |
| EditPlan.CheckedIsUniformIff | src/edit.rs:1307-1331 | a failure with its exact condition: frames that pass the check leave the target uniform exactly when all but the last of them end whole, which the check does not ask |
| EditPlan.TornFrameIsTaken | src/edit.rs:1307-1331 | an input that passes the check and breaks the target |
| EditPlan.TakenIsUniform | src/edit.rs:864-935 | frames of a uniform input leave a uniform target uniform, and add exactly their records |
| Edit.TruncateRecords | src/edit.rs:124-162 | the file keeps that many frames, or is refused and stays as it was |
| Edit.CopyRange | src/edit.rs:1037-1074 | the output holds the compressed frames of the range, unchanged, or nothing where it is refused |
| Edit.AppendFrames | src/edit.rs:864-935 | the file holds its data frames and the frames taken, or is refused and stays as it was |
| Edit.DivideAndRejoin | src/edit.rs:124-162 | copying a file's tail from a frame boundary, truncating it there and appending the copy gives the file back, byte for byte |
| FileUpdate.MoveKeeps | src/file_update.rs:87-109 | no step of a writer, failed or terminated, breaks what its handles and the target stand for |
| FileUpdate.RunIsSafe | src/file_update.rs:76-109 | every state every interleaving of writers reaches is safe |
| FileUpdate.OneWriter | src/file_update.rs:76-85 | at most one writer is past the lock |
| FileUpdate.TargetIsReplay | src/file_update.rs:54-59 | direct updates among them or not, the target holds what the events of the run made of it, each committed update applied to the whole of what was there, unless a direct update is at work |
| FileUpdate.EventsAreEarned | src/file_update.rs:87-109 | an event comes of one step of one writer: a commit of the writer's own update, or damage by a direct update |
| FileUpdate.CopiesCompose | src/file_update.rs:54-59 | over any interleaving of copies, failures and terminations included, every event is a commit and the target is at every moment the committed updates composed in order: never part of one |
| FileUpdate.RemovesOnlyItsOwn | src/file_update.rs:87-109 | what a writer removes by path is its own lock or temporary file |
| FileUpdate.ChangesAtOnce | src/file_update.rs:183-190 | what the target holds changes by a rename, to what the update makes of all of it, or by a direct writer |
| FileUpdate.SuccessIsCommitted | src/file_update.rs:76-85 | a success is reported only of the update committed last, once the lock is gone |
| FileUpdate.ReadersKeepTheirFile | src/file_update.rs:23-36 | a reader that opened the target keeps the bytes it opened through any run of replacements |
| FileUpdate.StaleLockStops | src/file_update.rs:61-75 | a lock left behind stops every writer until someone removes it |

## Findings

What the model shows the code does not do, each with the inputs that show it and the exact condition. The
code is modelled as it is.

| failure | shown by | holds exactly when |
|---|---|---|
| An unterminated last record looked up twice in a row is found only once (src/reader.rs:82-96) | Reader.TailIsLostTheSecondTime | Reader.HistoryIsFreshIff: the window does not stand past it |
| After a refused borrowed iterator a lookup can miss a whole record (src/reader.rs:746-781) | Reader.RecordAfterRefusal | the record is not in the frame looked up last at or past the last frame's count |
| A reverse iterator of a reader that just handed out the only record of the last frame never hands it out (src/reader.rs:2113-2196) | Iter.LookUpThenReverse, Iter.LookupStands | Iter.PlayAfterHistory, Iter.MissedMatters: the history did not end there, or the first call is not a backward one |
| A verifying read accepts an unterminated record that crosses a frame end (src/record.rs:786-793) | Verify.StraddlingTailIsAccepted | Verify.TailVerified: it begins in the last frame |
| Opened from a later frame, a finder's file refuses a slot the whole file answers with nothing (src/reader.rs:992-1092) | Witness.SlotIsRefused, Reopen.SlotDiffers | Reopen.RecordRenumbered: the last frame is not full, or the last group is |
| After such an opening a range that begins past the last frame is not refused as past the end: one at the very end is answered with nothing and no error, the others are refused for another reason (src/reader.rs:992-1092) | Witness.EndIsAccepted, Reopen.MissingFrameDiffers | Reopen.RangeRenumbered: it does not begin in a frame the last group is short of |
| A range far on in a huge file is read from a frame before its own, and refused or handed out as empty (src/reader.rs:121-148) | Reader.FarRangeIsLost, Placement.FarIsReached | Placement.AllInTheirFramesIff: the first record of the last frame, times the number of frames, fits 64 bits |
| The check of every frame lets frames through that break the target (src/edit.rs:1307-1331) | EditPlan.TornFrameIsTaken | EditPlan.CheckedIsUniformIff: every frame taken but the last ends whole |
| The older compressor drops short records (src/seekzstdsep_lib.rs:982-1042) | Compressor.ShortRecordIsLost | Compressor.OldConserves and Framing.AutoLosesIff: frame 0 is due past twice the separator |
| The retry loop never ends at a limit of zero (src/seekzstdsep_lib.rs:313-400) | Retry.RetryZeroLimit | Retry.CompressWithRetry: the limit is not zero, the input is empty, or the counts may differ |

Where docs/format.md says a verifying read refuses any frame it walks that holds a count of its own, the
code judges no frame end an unterminated record crosses; the model follows the code.

## Left out

- The zstd codec: compressing and decompressing are functions, the second undoing the first
  (`SeekableFile.Inverts`); levels, dictionaries and the frames' own headers and checksums are not
  modelled beyond whether a frame has a checksum.
- Reads and writes that fail, and what a file holds after an append or an edit was cut short. Reads of
  any size are modelled; errors of the operating system are modelled in `FileUpdate` only.
- Memory: the sizes of buffers are modelled, allocation is not; `SEEKABLE_MAX_FRAME_SIZE` and the 32-bit
  casts of a frame's own sizes when it is written are not modelled.
- Cursor.Cursor.Next: does not model the emitted count and `finish`, which only report what was handed out.
- Window.Window.Next: `on_boundary` is a field that no code sets to false once a window is pointed, and is
  true in every state of the model.
- Cursor.Cursor.CountUnits: counts records a run at a time where the source counts them one by one.
- Reader.RecordReader.constructor: takes the count of frame 0 as given; that the frame holds it is a
  condition of the theorems about uniform files.
- Placement.RequestIsExact: is stated where the count times the square of the number of frames fits 64 bits,
  the largest product a placement is divided by; past that, `Placement.AllInTheirFramesIff` says where a
  record is placed, but not how far a range reads.
- Reader.RecordReader.RecordsTo: models ranges on uniform files whose placements fit 64 bits
  (`Placement.Fits`); on files that are not uniform a quotient names no frame worth stating.
- Reader.RecordReader.PositionIter: models the same files.
- Reader.RunCalls: does not state what ranges and totals reply on files that are not uniform;
  `Reader.RecordReader.Record` and `TotalRecords` do for lookups and totals one call at a time.
- Iter.RecordIter.Next: models the iterator on uniform files only.
- Reopen.OpenFrom: opens uniform files only; a file that is not may have its reads stopped at a frame end
  inside a group.
- VerifyFrom.VerifyRest: models the read of everything from the first record on, as `Verify.VerifyFile`
  does for a whole file; a verifying read of part of a file is not stated.
- Compressor.Divide: the loop of the two compressors is written once, with the bytes of the separator the
  older one leaves out of its counts as a parameter.
- Retry.CompressWithRetry: the staging file is the frames of the last attempt; reflinks and moving it into
  place are left out.
- Append.Chain: the chained reader of the re-cut tail and the data is one source over both.
- FileUpdate.Move: reflink and ordinary copy are one step that may be seen part way; permissions, owners,
  hard links and symbolic links decide only whether a step goes ahead; loss of power is not modelled.
- `decompressed_range_into`, `inspect`, `count_frames`, `fold_records` and `into_bytes`: they add easy
  members over what is proved of the walk.
- The command line, the Nushell plugin, the deprecated helpers and the parsing of finder names.
