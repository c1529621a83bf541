# Verified model of the storages library

The library puts one object-storage interface over S3, Azure, SFTP and local
filesystems, with decorators that guard keys and encrypt objects. This project models
the parts of it that have properties of their own and proves them in Dafny 4.11:

- **Encrypted range reads** (`Layout`, `AgeFile`, `RangeSource`, `RangeRead`,
  `EncryptedStorage`). A plaintext range is served from a 4 KiB head, the final chunk and
  one forward-only body; it is proved equal to the slice of the fully decrypted object.
- **CopyAll** (`CopyAll`, `AtomicCopies`, `ErrGroup`, `CopyRun`). Filters and prefixes on
  strings, the copies as independent moves, and the bounded errgroup as a state machine.
- **S3** (`S3Copy`, `S3Parts`, `S3Listing`, `S3Delete`). The pinned server-side copy
  against concurrent writers, range splitting, marker paging and batched deletion.
- **SFTP** (`SftpReplace`, `SftpLazy`, `SftpTree`). Replace with rollback, the shared lazy
  connection, recursive and all-or-nothing deletion.
- **Key guard and paths** (`Paths`, `Guard`), **trees and their traversals** (`Trees`,
  `KeyOrder`), **Azure copy polling** (`AzurePoll`).

`dafny verify dfyconfig.toml` checks everything.

## What is assumed of the world

- age: opening a chunk shortens it by the 16-byte tag and undoes sealing; its reads are
  the header buffer, then the final chunk, then the covered chunks in increasing order
  (encrypted/range.go:24-40). The final chunk may or may not stay in its cache.
- A response body delivers pieces of any size of the range it was asked for, may end
  early or fail, and stays ended. An error-free read of a non-empty buffer delivers at
  least one byte.
- A failed request changes nothing. An unreliable store, server or bucket may fail any
  request; claims that need a working one say `reliable`.
- An S3 ETag names one content of the source. Each S3 call is atomic.
- Temporary sibling names are unused. `path.Clean` and `path.Join` follow Go's documented
  rules, written as a component stack; separators are "/".
- Characters stand for bytes; integers are unbounded except where a lemma speaks of int64.

## Results that differ from the comments in the source

- `cleanRelative` is described as accepting names that `path.Join` keeps (copy.go:340-341).
  It also accepts ".", which joining drops; `CopyAll.JoinKeepsNameIff` says exactly when.
  Listed beside the destination's own name it makes the copies depend on their order, and
  only then (`CopyAll.IndependentIff`).
- CopyAll does not depend on the order of its copies exactly when the destination is not a
  strict ancestor of the source (`CopyAll.OrderFreeIff`). Nothing in the code refuses such
  a destination.
- The poll wait stays between its bounds for ever exactly when the cap is at most half of
  the int64 range (`AzurePoll.WaitsStayInRangeIff`); a larger configured cap overflows.

## Model

| member | source | states |
|---|---|---|
| Layout.AcceptedExactly | encrypted/layout.go:34-46 | plaintextSize refuses exactly the sizes too small for a tag and those whose second or later last chunk would hold at most a tag; otherwise it removes one tag per chunk |
| Layout.PlaintextSizeInverts | encrypted/layout.go:34-46 | plaintextSize answers p exactly for the size that p bytes encrypt to, for every stored size and every p |
| Layout.RefusedIffUnreachable | encrypted/layout.go:32-46 | a size is refused exactly when no plaintext encrypts to it |
| Layout.ReportedSizeExactly | encrypted/layout.go:48-55 | Stat and List report the plaintext size of an encrypted object and any other size unchanged |
| Layout.MachineSizeIsExact | encrypted/layout.go:34-46 | with every operation wrapping to int64 the answer is still exact up to a payload of MaxInt64 - 65551 |
| Layout.MachineSizeExactIff | encrypted/layout.go:34-46 | over all of int64 it is exact if and only if payload + 65551 does not overflow or the size is one that is refused anyway |
| Layout.MachineSpanIsExact | encrypted/layout.go:57-62 | the same for chunkSpan on every range inside the plaintext |
| Layout.StreamAndTailAreTheNeededChunks | encrypted/range.go:103-136 | stream and tail are disjoint and hold exactly the chunks the range touches plus the final one, and nothing of any other; the stream is empty exactly when the range lies in the final chunk |
| AgeFile.CountChunks | encrypted/layout.go:17-23 | counting full chunks off one by one brackets the payload between whole numbers of chunks |
| AgeFile.FitsIffAccepted | encrypted/layout.go:34-46 | plaintextSize accepts exactly the objects that fit header, chunks and tags counted this way |
| AgeFile.PrefixIsChunks | encrypted/range.go:19-22 | full decryption succeeds iff every chunk authenticates, and every plaintext byte is the one its own chunk holds |
| AgeFile.EncryptRoundTrip | encrypted/storage.go:162-191 | an encrypted plaintext has the formula's size and decrypts to itself, the empty one included |
| RangeSource.RangeBody.ReadFull | encrypted/range.go:225-229 | fills the buffer from pieces of any size or consumes all there is; the failure recorded is the body's own |
| RangeSource.ChunkSource.ReadAt | encrypted/range.go:182-209 | whatever fails, the n bytes returned are the object's at off; a nil error fills the buffer; pos never decreases and is the stream's true offset until a read fails; head and tail reads touch no stream; a backward read is reported only at a byte the stream cannot give |
| RangeSource.ChunkSource.ReadPiece | encrypted/range.go:186-208 | one turn of the loop makes progress unless it fails, from the region that holds the offset |
| RangeSource.ChunkSource.ReadStream | encrypted/range.go:211-250 | skips forward and reads up to the stream's end; refuses exactly what is behind or past it; a failure the body returned is remembered as the source's own, an early end is the object's and is not |
| RangeRead.ReadAnswer | encrypted/range.go:142-159 | for every answer of the store: the bytes exactly from a body of the asked length that ended cleanly; a corrupt object exactly for a vanished range or a body that ended short; a refusal or a failed body stays the store's error |
| RangeRead.Fetch | encrypted/range.go:139-160 | exactly the bytes asked for, or an error; on a reliable store it succeeds exactly when the object has them, and is a corrupt object otherwise |
| RangeRead.OpenChunkSource | encrypted/range.go:103-137 | on a reliable store it opens, at the first chunk of the range, reaching its last or the tail; no stream exactly for a range in the final chunk |
| RangeRead.ReadWholeSource | encrypted/range.go:81-94 | the whole object from a reliable store, a prefix of it or an error otherwise |
| RangeRead.RangeReader.CheckFinalChunk | encrypted/range.go:28-29 | a reader opens on an intact source exactly when the final chunk authenticates |
| RangeRead.RangeReader.LoadChunk | encrypted/range.go:30-32 | the next chunk in order or the final one is always served; what it returns is that chunk opened; an error names its true cause |
| RangeRead.RangeReader.Read | encrypted/storage.go:337-343 | reads of any size across chunks deliver the plaintext at the cursor, fill the buffer unless they fail, and never ask for a passed chunk; a store failure is never blamed on the object nor the reverse |
| EncryptedStorage.ReadHeader | encrypted/range.go:26-27 | the header buffer is served from memory; no match is ErrNoKey, a malformed header a corrupt object |
| EncryptedStorage.PlanRange | encrypted/storage.go:196-218 | for every offset and length, by the plaintext size alone: which error in which order, and a range of the asked length or of what is left after the offset |
| EncryptedStorage.GetObjectRange | encrypted/storage.go:193-234 | on a reliable store it opens exactly when range, object, key and final chunk are good, with the right error otherwise; the reader is over this object and this range |
| EncryptedStorage.ReadRange | encrypted/storage.go:193-234 | the bytes are always the range's plaintext from its start; no failure makes it read out of order; on a reliable store it succeeds exactly when the chunks it touches authenticate |
| EncryptedStorage.PlaintextIsSlice | encrypted/storage.go:193-195 | bytes found chunk by chunk are a slice of the fully decrypted object |
| EncryptedStorage.RangeReadRefinesFullRead | encrypted/storage.go:193-234 | every range of every object that decrypts is exactly the slice of the whole from the offset, of the asked length or to the end if that is shorter or the length negative; ErrInvalidRange exactly at or past the end; on both the whole-object and the chunked path |
| Paths.CleanKeepsElements | guard.go:229-229 | path.Clean keeps where a path leads and is idempotent |
| Paths.DotDotTakesBack | guard.go:229-229 | in path.Clean a ".." takes back the element just before it, wherever in a path it stands |
| Paths.DotDotClimbs | guard.go:229-229 | with nothing to take back it vanishes at the root and stays, as a climb, on a relative path |
| Paths.ParentOf | guard.go:229-229 | a clean path followed by ".." loses its last element |
| Paths.JoinDescends | guard.go:31-34 | joining clean elements onto any path goes down by exactly those elements |
| Paths.PrefixIsElementPrefix | copy.go:275-278 | the string test for "under a prefix" holds exactly when the elements begin with the prefix's |
| Guard.CleanExactly | guard.go:215-244 | clean accepts exactly the relative keys whose running depth never goes below zero and answers with elements free of "", "." and ".." |
| Guard.ObjectKeyExactly | guard.go:194-206 | objectKey accepts those of them that do not name the root, and hands on the same key |
| Guard.CleanIdempotent | guard.go:215-237 | a cleaned key is accepted unchanged and leads to the same place |
| Guard.DetourIsCleaned | guard.go:215-237 | a key that goes down one element and back up is gated, and handed on, as the key without the detour |
| Guard.Containment | guard.go:162-180 | after any chain of relative SubStorage calls from any root, a key leads under that root by exactly the elements spelled out, strictly under it for objects, for plain and slash-terminated prefixes |
| Guard.NavigateAccepts | guard.go:162-180 | a chain of SubStorage calls is refused exactly when one of its sub-paths is |
| Guard.DescentLaws | guard.go:162-180 | what a chain spells out is its sub-paths' elements laid end to end |
| Guard.GateAll | guard.go:103-115 | every path is gated before any is passed on, each to its own cleaned key |
| CopyAll.Select | copy.go:256-282 | nothing to copy, an unclean name, or, in the listing's order, every listed name as often as listed except folder markers and those already under a nested destination |
| CopyAll.FolderMarkerExactly | copy.go:260-263 | a folder marker is exactly a name that ends in a slash |
| CopyAll.DeleteFunc | copy.go:261-263 | what is kept is, from left to right, the names at exactly the places that do not match |
| CopyAll.NestedExactly | copy.go:319-338 | nestedPrefix answers exactly for a clean destination strictly inside the source, with the relative part |
| CopyAll.NestedFromRoot | copy.go:319-338 | the same for any two prefixes, guarded or not, by where each leads from the root |
| CopyAll.RelativeExactly | copy.go:340-345 | cleanRelative accepts exactly the names that spell out real elements, and "." |
| CopyAll.DotIsAccepted | copy.go:340-345 | the name "." passes although joining drops it |
| CopyAll.JoinKeepsNameIff | copy.go:340-345 | joining keeps an accepted name as it is exactly when it is not "." or the prefix is the root |
| CopyAll.AlreadyThereExactly | copy.go:274-278 | the nested filter drops exactly the names strictly under the destination |
| CopyAll.KeptIndependent | copy.go:296-303 | what copying one selected name writes, copying another neither reads nor writes, but for "." beside the destination's own name |
| CopyAll.IndependentIff | copy.go:274-303 | for a destination that is not a strict ancestor, the copies of a selection are independent exactly when it does not hold both "." and the destination's own name |
| CopyAll.DotClashBreaksOrder | copy.go:274-303 | a selection that holds both has two copies whose order matters |
| CopyAll.CopyAllConfluence | copy.go:296-313 | in every order the selected objects, "." among them or not, end at dst/name with the original src/name and no other key changes |
| CopyAll.OrderFreeIff | copy.go:274-303 | copies commute on every store exactly when the destination is not a strict ancestor of the source |
| CopyAll.AncestorBreaksOrder | copy.go:296-303 | into a strict ancestor there are two listed names and a store on which order matters |
| AtomicCopies.CopyStep | copy.go:302-303 | one more independent atomic copy adds exactly that object, whatever was copied before |
| AtomicCopies.AnyOrderCopiesExactly | copy.go:296-313 | any sequence of independent copies leaves each destination with its source's original value and all else unchanged |
| AtomicCopies.CopiedUniquely | copy.go:296-313 | that description determines the resulting store |
| ErrGroup.StepKeepsInv | copy.go:294-315 | every step keeps the limit on goroutines, ties cancellation and the kept error to a task's failure or a caller's cancel, and never replaces an error already kept |
| ErrGroup.NothingBeginsOnceCancelled | copy.go:298-301 | after a failure or a cancel no further work begins |
| ErrGroup.WaitOutcome | copy.go:315-316 | Wait's error is nil exactly when every task did its work, and without a caller's cancel it is a task's own failure |
| ErrGroup.NeverStuck | copy.go:294-315 | until every task has returned some task can move |
| ErrGroup.StepsRunOut | copy.go:294-315 | every such move uses up one of finitely many steps |
| ErrGroup.SmoothStep | copy.go:297-314 | without a failure or a cancel nothing is skipped and no error is kept |
| ErrGroup.RoomToDispatch | copy.go:295-297 | below the limit the next task can always be started |
| ErrGroup.SumIsCount | copy.go:295-295 | the quantity kept under the limit is the number of goroutines started and not returned |
| CopyRun.RunOutcome | copy.go:284-316 | for every list of copies, every interleaving and any other writers: at most the limit is in flight; the totals are over exactly the copies that succeeded; the error is nil exactly when all did, and without a caller's cancel it is a real copy's failure |
| CopyRun.NoLateStart | copy.go:298-301 | over every run, once a failure or cancel is in, no copy starts that had not |
| CopyRun.FirstErrorStays | copy.go:294-315 | the error reported is the first there was |
| CopyRun.SmoothRunCopiesAll | copy.go:284-316 | a run without a failure or a cancel has no error, and has copied everything once it has returned |
| CopyRun.RunGoesOn | copy.go:294-313 | a run that has not returned can go on so, one of finitely many steps at a time, a copy that succeeds adding its stat |
| CopyRun.StoreFollows | copy.go:296-313 | in every run of independent copies without other writers the store is at every moment the first one with exactly the finished copies made, sources gone since the listing included |
| CopyRun.CopyListedOutcome | copy.go:249-316 | from a listing to the end of the call: every run over the names Select answers has that outcome, and where order is irrelevant a nil error means every listed name, folder markers and those already there aside, is at dst/name with what src/name held, and nothing else changed |
| S3Parts.PartsTile | s3/storage.go:662-676 | parts are non-empty, each begins where the last ended, the first at 0, the last ends at the size |
| S3Parts.PartsWithinLimits | s3/storage.go:549-578 | for every size and requested part size at most 10000 parts of at least 5 MiB, and at most 5 GiB whenever 10000 such parts can hold the object; a request within these limits, or the default, is used as it is when 10000 such parts hold the object |
| S3Parts.PartsConcatenate | s3/storage.go:657-701 | the parts in order concatenate to the object |
| S3Parts.HeaderAsksExactly | s3/storage.go:388-398 | the Range header names the first byte and the last one included, or no last one, and so asks for exactly the clamped bytes for every int64 range, without overflow |
| S3Copy.StepKeepsCopyInv | s3/storage.go:489-634 | every API call, part event and foreign write keeps the destination as it was until success, pins a version the source had, and keeps the upload's parts to that version |
| S3Copy.CompleteIsWhole | s3/storage.go:605-615 | completing the upload writes the pinned version whole |
| S3Copy.NoTornCopy | s3/storage.go:489-701 | in every run the destination is as before or, after success, the one version whose ETag the call pinned, which the source had, of the reported size; a refused call that opened an upload asked to abort it; only an overwritten source is reported as changed; also from copyListed's stale-listing fallback; parts run under the asked concurrency |
| S3Copy.CalmCopySucceeds | s3/storage.go:489-634 | with no other writer and no refusal of S3's own, a call that returns has copied the source, by parts exactly above 5 GiB, also from a stale listing; without a source it is ErrFileNotFound |
| S3Copy.CalmGoesOn | s3/storage.go:489-634 | such a call can always go on until it returns |
| S3Copy.CalmStep | s3/storage.go:489-634 | and every step of it uses up one of finitely many |
| S3Copy.FirstRefusalIsReported | s3/storage.go:616-633 | the error of the part that failed first is the one the call answers with |
| S3Listing.ListV1 | s3/storage.go:400-454 | against any server that pages sorted keys after the marker, every key under the prefix once, trimmed, in order |
| S3Listing.ListPages | s3/storage.go:426-453 | the marker loop ends and has collected every page |
| S3Listing.NamesExactly | s3/storage.go:406-422 | trimming loses no key but the prefix's own and keeps strict order |
| S3Delete.Bucket.DeleteKnown | s3/storage.go:741-768 | consecutive requests of 1000 keys, the last of what is left, that together are the list, stopping at a failure |
| S3Delete.FoundKeys | s3/storage.go:794-814 | what the walk finds, joined onto the prefix, is exactly the keys under it, each once |
| S3Delete.Bucket.DeleteAll | s3/storage.go:794-814 | exactly the keys under "prefix/" go, each named once, or the prefix is reported missing exactly when there are none; whatever other keys the bucket holds, none of them ever goes |
| Trees.Walk | utils.go:23-56 | every file below a directory, each name once, whatever order the listings have |
| Trees.ListUnder | ssh/storage.go:337-369 | the same for SSH's recursive listing |
| KeyOrder.Sort | ssh/storage.go:328-333 | a strictly sorted rearrangement |
| KeyOrder.FirstDifferenceDecides | ssh/storage.go:328-333 | the order is bytewise: the first difference decides, and a key precedes its extensions |
| KeyOrder.DotBeforeSlash | ssh/storage.go:328-333 | a file beside a directory sorts before what the directory holds |
| KeyOrder.ListAndWalk | ssh/storage.go:303-335 | on every tree List and Walk answer the same names the same number of times, exactly the files below the directory, List strictly sorted |
| SftpTree.Server.RemoveAll | ssh/storage.go:631-667 | success leaves nothing at or under the path; whatever fails, nothing outside changes, only empty directories are removed, and it ends |
| SftpTree.Server.DeleteAll | ssh/storage.go:604-629 | exactly the sub-tree goes, or a missing path is reported and nothing changes; whatever fails, nothing outside it changes |
| SftpTree.Server.Delete | ssh/storage.go:558-595 | all are objects and exactly they go, duplicates or not, or nothing changes and the answer is, from left to right, the requested paths at exactly the places that are not objects |
| SftpReplace.Remote.ReplaceFile | ssh/storage.go:522-549 | success puts the new content at dst; an error changes nothing, or only if the server refused the restore too names where the old content is; no state in between loses the old content, and a call that fails never shows the new; no file is left behind but those the server would not remove; on a reliable server it succeeds with posix-rename, dst never absent, and without |
| SftpReplace.Remote.FillAndReplace | ssh/storage.go:466-483 | the same for filling the temporary and replacing; a body that fails leaves dst untouched in every state |
| SftpReplace.Remote.WriteVia | ssh/storage.go:392-401 | and with the temporary created before and cleaned up after an error; on a reliable server exactly dst changes, and only for a body that does not fail |
| SftpReplace.Remote.PutObject | ssh/storage.go:371-402 | in every state dst holds what it held before or, in a call that succeeds, the whole body; a body that fails part-way never touches it; other files never change; on a reliable server every other body is written |
| SftpReplace.Remote.Copy | ssh/storage.go:404-464 | a failed Stat, a missing source or the same path changes nothing; otherwise as PutObject with the source's whole content and its number of bytes, also when reading the source fails part-way; on a reliable server it is copied |
| SftpLazy.StepKeepsLock | ssh/sftp_lazy.go:82-130 | the lock has one holder, so one connect at a time, and only before an outcome is kept |
| SftpLazy.StepKeepsConn | ssh/sftp_lazy.go:96-130 | connections opened minus closed is 1 exactly while ssh is set, and at most one is ever opened |
| SftpLazy.StepKeepsLog | ssh/sftp_lazy.go:78-110 | answers are cut-short connects, then the first outcome kept, then ErrStorageClosed |
| SftpLazy.StepKeepsCallers | ssh/sftp_lazy.go:83-104 | only a caller whose own ctx has ended is cut short or gives up, and a Close that returned has closed |
| SftpLazy.ConnectOnce | ssh/sftp_lazy.go:82-130 | over every run: all of these, so every caller after the first kept outcome gets it until Close, and only ErrStorageClosed after |
| SftpLazy.FirstOutcomeAnswersAll | ssh/sftp_lazy.go:92-110 | a connect that succeeds, or fails with its caller's ctx alive, answers that caller with its own result and every later caller with the same until Close |
| SftpLazy.ClosedAnswersAll | ssh/sftp_lazy.go:90-92 | after a Close every caller that acquires the lock gets ErrStorageClosed |
| SftpLazy.ConnectMayEnd | ssh/sftp_lazy.go:96-109 | a connect may end either way and answers its caller with what happened; only a failure with that caller's ctx ended leaves the next one to connect again |
| SftpLazy.WaiterMayLeave | ssh/sftp_lazy.go:83-87 | a waiting caller whose ctx has ended may leave and changes nothing else |
| SftpLazy.NeverStuck | ssh/sftp_lazy.go:82-130 | while a call has not returned, some call can move |
| AzurePoll.CopyPollIntervals | azure/storage.go:472-482 | each interval is the option if positive, else the configuration if positive, else the default; the cap is raised to the first interval |
| AzurePoll.WaitIsCappedDoubling | azure/storage.go:490-497 | the k-th wait is the first interval doubled k times, capped; each is twice the one before or the cap |
| AzurePoll.WaitsStayInRangeIff | azure/storage.go:490-497 | all waits stay between first interval and cap exactly when the cap is at most half of int64 |
| AzurePoll.WaitOverflows | azure/storage.go:490-497 | above that some wait comes out negative |
| AzurePoll.AwaitCopy | azure/storage.go:484-540 | returns at the first turn that is not pending; a nil error exactly for success under its own copy id, so abortCopy's nil result never becomes one; which error every other turn gives; one abort exactly when it leaves on an ended ctx or a failed poll |

## Left out

- RangeRead.RangeReader.Read: speaks of reads up to the first error; a caller that reads on after one is not modelled.
- KeyOrder.Sort: is stated for names that do not repeat, which is what the listing gives it.
- S3Delete.Bucket.DeleteAll: is stated for clean keys under a clean prefix; a folder marker or unclean key under the prefix being deleted is outside it.
- SftpReplace.Remote.PutObject: folds a failed MkdirAll, a directory at the destination and a failed Stat into one refusal, as Copy does with a failed Open; a reliable server is one that has no directory there.
- AzurePoll.AwaitCopy: runs over a finite stretch of turns; a copy that stays pending for ever has no return to speak of.
- S3Copy.NoTornCopy: headers, metadata, tags and SSE are not carried.
- The filesystem backend's PutObject and Copy: the same temporary-and-rename protocol with a rename that replaces, so weaker than the SFTP one.
- The filesystem backend's Delete: the same two loops as SSH's. S3's and Azure's check every object first in the same way; S3 then removes them with the batched deleteKnown modelled here.
- StreamCopy, plain option resolution, errors' texts, logging, and pass-through decorator methods.
- Contexts and failures inside Walk and List: an error there returns no listing at all.
- The age cryptography, header parsing and foreign headers of another length.
- Symlinks, case aliases, file modes, Windows separators, absolute SubStorage re-roots and unguarded storages.
- Client construction, credentials, retries and endpoint configuration.
