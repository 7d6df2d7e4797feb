# A verified model of pgrwl

pgrwl receives the write-ahead log of a PostgreSQL server, stores it together with base backups, and deletes what a
recovery window no longer needs. This project models its state machines and stream transformers in Dafny and proves
the guarantees that span many functions. `dafny verify dfyconfig.toml` checks everything.

## Modules

| file | what it models |
|---|---|
| `Disk.dfy` | files with volatile and durable entries and contents, fsync, directory fsync, writeback, crash |
| `WalProtocol.dfy` | WAL receiver and uploads as a transition system over single system calls, with failures, crashes and restarts |
| `WalSafety.dfy` | what every step keeps; no acknowledged byte is lost over any run |
| `Uploads.dfy` | the receiver and the upload workers together |
| `WalRecovery.dfy` | when a restart can skip a segment, exactly; where the guarantees end |
| `WalLayout.dfy` | the receive directory as the stream cut into segments, to the end of the stream |
| `CopyStream.dfy` | what the client must answer to what the server sends: statuses, the end of the stream, timelines to follow |
| `Receivelog.dfy` | the streaming client as an object, method by method, each system call a recorded protocol step |
| `XLog.dfy`, `Arith.dfy`, `Strings.dfy` | segment arithmetic, bit tricks, hexadecimal file names |
| `StreamingStart.dfy`, `Sorting.dfy` | the choice of the start position from the receive directory |
| `WalNames.dfy`, `Retention.dfy` | names in the WAL archive and their order; recovery-window retention |
| `ChunkedCrypt.dfy`, `Pieces.dfy` | chunked authenticated encryption, writer and reader |
| `Variants.dfy`, `Storage.dfy` | storage names with suffixes; the store as a logical map |
| `BaseBackup.dfy` | the base-backup message stream, archives, manifest and marker |
| `Multipart.dfy` | part sizes and streaming multipart upload |
| `UploadPool.dfy`, `BackupSlot.dfy` | the concurrent upload workers; the single backup slot |

Classes model objects whose methods update their fields. The receiver's methods keep a ghost history of protocol
states, so a theorem about runs of `WalProtocol` holds at every point of these methods; before each of their file
operations the kernel may write back anything. A call to the outside is `Faults.Attempt`, or a value chosen by `*`. It
may fail unless the object is `reliable`, and under that condition the methods promise success.

## Assumptions

- The server sends contiguous bytes, and the bytes of a timeline are a fixed function of the position. The client
  itself checks only the offset inside a segment (internal/core/xlog/receivelog.go:420-429).
- fsync of a file whose entry was never durable makes the entry durable too: the directory is not fsynced when a
  file is created (internal/core/xlog/walfile.go:136-154). A rename becomes durable only with the directory, and a
  failed fsync may drop pages.
- If no segment file is left, the server offers a start no later than any flush position it has been sent, as its
  replication slot does (internal/core/xlog/pg_receivewal.go:182-187).
- A removed segment file that a crash could bring back is gone for good once its segment is created again.
- The receiver always runs in synchronous mode (internal/core/xlog/receivelog.go:57-72).
- Compression and encryption have inverses; sealing adds 16 bytes. Nothing is said about secrecy or tampering.
  `ChunkedCrypt.CorrectAeadExists` shows that such a sealing exists.
- A backend answers a listing completely, each name once, and does not delete or overwrite what it was not asked to.

## Results that differ from a first expectation

- Less than one segment of *acknowledged* data is requested again after a crash (`WalRecovery.RestartSkipsNothing`).
  Of durable data it is at most one segment (`WalRecovery.OneSegmentAgain`), and less than one exactly unless a segment
  can come out of the crash complete but without its final name (`WalRecovery.RepeatsLessExactly`), which happens
  (`WalRecovery.WholeSegmentRequestedAgain`).
- A restart skips nothing if every session starts from a settled directory, which both the directory fsync at the end
  of a session and a machine crash bring about. A process that dies between a rename and the directory fsync breaks
  this (`WalRecovery.UnsettledRestartLosesGapSafety`), and so does a directory fsync that fails, because the failure is
  only logged and the next session starts (internal/core/xlog/pg_receivewal.go:229-235). The exact conditions are
  `WalRecovery.GapSafeIffSettled` for a state and `WalRecovery.OpeningIsSafeExactly` for the start of a session.
- Removing a partial file whose fsync failed at reopening loses acknowledged bytes exactly if some of that segment
  had been acknowledged (`WalRecovery.UnlinkLosesExactly`); a run that gets there is
  `WalRecovery.UnlinkLosesAcknowledged`. Runs contain the removal in all cases in which it keeps the invariants.
- The flush position is carried over a timeline switch and then is right only at an aligned end
  (`WalRecovery.SwitchKeepsFlushExactly`, `WalRecovery.SwitchBreaksFlush`), and it can go back afterwards
  (`WalRecovery.FlushTurnsBackExactly`, `WalRecovery.SwitchTurnsFlushBack`), so the flush theorems run from the start
  of a session to its first switch.
- A controlled server shutdown never ends `ReceiveXlogStream` without an error: the announcement is never absent, its
  timeline is then 0, and 0 is not later than the current one (internal/core/xlog/streamutil.go:214-258).
- The upload batch excludes only the currently open segment and the manifest, not partial files in general
  (`UploadPool.FilterFilesToUpload`, `UploadPool.PartialIsUploaded`), although README.md:782 says that the uploader
  ignores partial files.
- Retention protects every kept backup if a backup that started no earlier begins no earlier in the WAL; without
  that, `Retention.HarmExactly` says when it does not, and `Retention.PassCanHarm` gives an input.

## Model

| member | source | states |
|---|---|---|
| `WalSafety.AcknowledgedBytesSurvive` | internal/core/xlog/receivelog.go:502-533 | over every run with crashes, writeback, failed system calls, uploads and removals of complete segments, removals of partial files nobody needs, and restarts: every byte below a flush position ever reported is in a fully stored object or in the durable copy of its segment file after a crash at any later moment |
| `WalSafety.RunKeeps` | internal/core/xlog/receivelog.go:219-249 | at every moment of every run the disk invariant and the flush invariant hold, and the acknowledged position has not decreased |
| `WalSafety.ReportsAscend` | internal/core/xlog/receivelog.go:226-261 | over every run: from any moment of a session to any later moment of the same session the flush position that a status update reports has not gone back |
| `WalSafety.StepKeeps` | internal/core/xlog/receivelog.go:219-249 | every step keeps the disk invariant and, without uploads, every durable rename; all steps but the removal of an unneeded partial file keep every byte safe, in the archive or on stable storage |
| `WalSafety.StepFlushes` | internal/core/xlog/receivelog.go:219-249 | every step keeps all bytes below the flush position, and below every acknowledged position, safe |
| `WalSafety.QuietFlushes` | internal/core/xlog/receivelog.go:409-500 | every step of the receiver or the environment that does not move the flush position keeps all bytes below it safe |
| `WalSafety.CreateKeeps` | internal/core/xlog/walfile.go:136-154 | creating or emptying the partial file leaves earlier segments durable and loses no durable byte |
| `WalSafety.ExtendKeeps` | internal/core/xlog/walfile.go:136-154 | extending the new file with zeros leaves every file empty or of full size |
| `WalSafety.OpenExistingKeeps` | internal/core/xlog/walfile.go:156-183 | reopening a full-size partial file and fsyncing it keeps the invariant; writing starts again at offset 0 |
| `WalSafety.UnlinkKeeps` | internal/core/xlog/walfile.go:166-181 | removing a partial file after a failed fsync keeps the invariant if its segment is in the archive, or nothing of it is acknowledged and no later file exists |
| `WalSafety.UploadKeeps` | internal/opt/supervisors/receivesv/upload.go:112-148 | a finished upload, a failed one that damages the object, and the removal of the local file lose no safe byte |
| `WalSafety.RemoveKeeps` | internal/opt/supervisors/receivesv/upload.go:131-139 | the local file of a complete segment goes only when the archive holds it, even while its durable entry outlives the removal |
| `WalSafety.WriteKeeps` | internal/core/xlog/walfile.go:34-54 | rewriting a resumed partial file from offset 0 keeps every byte durable that was durable, since a resend carries the same bytes |
| `WalSafety.SyncFlushes` | internal/core/xlog/receivelog.go:227-249 | after a successful fsync everything received is durable, so the flush position may move to it |
| `WalSafety.SyncFailKeeps` | internal/core/xlog/walfile.go:24-32 | a failed fsync, which may drop pages, takes no durable byte and ends the session |
| `WalSafety.SyncFullKeeps` | internal/core/xlog/walfile.go:258-277 | after the fsync under the partial name the complete segment is durable |
| `WalSafety.RenameKeeps` | internal/core/xlog/walfile.go:279-286 | the rename happens only for a durable complete segment |
| `WalSafety.SyncFinalKeeps` | internal/core/xlog/walfile.go:288-291 | the fsync under the final name keeps the invariant |
| `WalSafety.CloseFlushes` | internal/core/xlog/walfile.go:187-219 | closing a complete segment may report its end as flushed |
| `WalSafety.ParkFlushes` | internal/core/xlog/walfile.go:232-256 | closing an incomplete segment at the end of the stream may report what was received as flushed |
| `WalSafety.CrashKeeps` | internal/core/xlog/walfile.go:258-298 | a machine crash, settling each entry and byte to either version, keeps the invariant |
| `WalSafety.BackgroundKeeps` | internal/core/xlog/walfile.go:34-54 | writeback by the kernel at any time keeps the invariant |
| `WalSafety.RestartPlace` | internal/core/xlog/pg_receivewal.go:314-339 | the restart position lies after only safe segments, and nothing later is visible; with no file left it may be any position the server still offers |
| `WalSafety.RestartFlushes` | internal/core/xlog/receivelog.go:99-105 | setting the flush position to the start of a session is right: everything below it is safe |
| `WalRecovery.GapSafeIffSettled` | internal/core/xlog/pg_receivewal.go:256-340 | without uploads a crash now can make the restart skip a segment if and only if some rename below a surviving entry is not durable |
| `WalRecovery.RestartSkipsNothing` | internal/core/xlog/pg_receivewal.go:256-340 | in runs without uploads whose sessions start from a settled directory: whatever crash, everything before the restart position is complete final files, and less than one segment of acknowledged data is requested again |
| `WalRecovery.RestartIsCovered` | internal/core/xlog/pg_receivewal.go:256-340 | in every run, with uploads and however its sessions start: whatever crash, every segment before the restart position is in the archive or on stable storage in full |
| `WalRecovery.SettlingSteps` | internal/core/xlog/pg_receivewal.go:229-235 | the directory fsync that ends a session, and a machine crash, both settle the directory |
| `WalRecovery.OrderlyRunKeeps` | internal/core/xlog/walfile.go:258-298 | along such runs all renames below the current segment are durable before the next segment is opened |
| `WalRecovery.OpeningIsSafeExactly` | internal/core/xlog/pg_receivewal.go:229-235 | after opening the first segment of a session a crash can open a gap if and only if the session started from an unsettled directory |
| `WalRecovery.RestartExists` | internal/core/xlog/pg_receivewal.go:310-339 | as long as some segment counts a restart position exists |
| `WalRecovery.UnsettledRestartLosesGapSafety` | internal/core/xlog/walfile.go:279-291 | the assumption is needed: a concrete run in which a process dies between rename and directory fsync and a later crash opens a gap |
| `WalRecovery.WholeSegmentRequestedAgain` | internal/core/xlog/walfile.go:274-286 | a concrete run: a crash right before the rename requests a whole durable segment again |
| `WalRecovery.RepeatsLessExactly` | internal/core/xlog/walfile.go:258-298 | along settled runs: every crash and restart receives less than a segment of durable bytes again if and only if every named segment whose rename is not durable has an offset at which neither copy holds the byte of the server |
| `WalRecovery.OneSegmentAgain` | internal/core/xlog/pg_receivewal.go:310-339 | in every run, after any crash nothing behind the restart segment is visible or durable, so at most one segment of durable data is received again |
| `WalRecovery.UnlinkLosesExactly` | internal/core/xlog/walfile.go:166-181 | removing a partial file whose fsync failed keeps all acknowledged bytes exactly when its segment is in the archive or none of it was acknowledged, and keeps all invariants exactly when the file is unneeded |
| `WalRecovery.UnneededIfUnacknowledged` | internal/core/xlog/walfile.go:166-181 | along settled runs the file about to be reopened is unneeded exactly when nothing of its segment is acknowledged |
| `WalRecovery.UnlinkLosesAcknowledged` | internal/core/xlog/walfile.go:166-181 | a concrete run: one byte is flushed and acknowledged, the session restarts, and the removal loses the byte |
| `WalRecovery.SwitchKeepsFlushExactly` | internal/core/xlog/receivelog.go:185-197 | after a timeline switch the carried-over flush position is right exactly when the new timeline starts at the aligned end of the old one |
| `WalRecovery.SwitchBreaksFlush` | internal/core/xlog/receivelog.go:185-197 | a concrete run and switch after which the flush position is not durable |
| `WalRecovery.FlushTurnsBackExactly` | internal/core/xlog/walfile.go:187-219 | in every session after a switch, when the first segment is complete the flush position goes back exactly if that segment ends before the old timeline stopped |
| `WalRecovery.SwitchTurnsFlushBack` | internal/core/xlog/receivelog.go:185-197 | a concrete run, switch and session after which the flush position has gone back |
| `WalRecovery.SwitchKeepsDisk` | internal/core/xlog/receivelog.go:185-197 | a timeline switch keeps the disk invariant |
| `WalLayout.DirectoryIsCutStream` | internal/core/xlog/receivelog.go:409-500 | without uploads, between messages, while the last file is closed at the end of the stream, and after that end, the directory is a function of the start and the position received: final files equal to their slices, at most one partial tail, the rest as before |
| `WalLayout.ChoppingIsInvisible` | internal/core/xlog/receivelog.go:446-496 | without uploads, two receptions of the same bytes, however chopped, synced or reported, leave the same directory |
| `WalLayout.FreshDirectory` | internal/core/xlog/walfile.go:187-219 | without uploads, over an empty directory the final files are exactly the fully received segments and the only partial file is the tail |
| `WalLayout.FinalNamesAreExact` | internal/core/xlog/walfile.go:202-210 | at every moment a final name stands for exactly one segment of the server, in both copies |
| `Receivelog.StreamCtl.constructor` | internal/core/xlog/receivelog.go:57-72 | a session over the directory a run without uploads has left, starting where the restart rule says |
| `Receivelog.StreamCtl.Begin` | internal/core/xlog/receivelog.go:99-105 | the flush position starts at the start position |
| `Receivelog.StreamCtl.OpenWalFile` | internal/core/xlog/walfile.go:58-134 | a full-size file is reopened and fsynced, after which its bytes are durable; an absent or empty one is created as zeros; any other size is an error that changes no file; if no call fails the first two succeed; after success the partial file of the segment is open at offset 0 |
| `Receivelog.StreamCtl.CreateFileAndTruncate` | internal/core/xlog/walfile.go:136-154 | create, then extend to the segment size with zeros; either may fail |
| `Receivelog.StreamCtl.OpenFileAndFsync` | internal/core/xlog/walfile.go:156-183 | a failed open or fsync ends the process, a failed fsync after trying to remove the file |
| `Receivelog.StreamCtl.WriteAtWalFile` | internal/core/xlog/walfile.go:34-54 | writes at the offset; the position moves only on success, an error may leave a prefix |
| `Receivelog.StreamCtl.SyncWalFile` | internal/core/xlog/walfile.go:24-32 | fsync of the open file, or an arbitrary failure |
| `Receivelog.StreamCtl.CloseWalFile` | internal/core/xlog/walfile.go:187-219 | renames exactly when complete; then the flush position is what was received |
| `Receivelog.StreamCtl.CloseAndRename` | internal/core/xlog/walfile.go:258-298 | close, fsync, rename, fsync of file and directory in this order; a failure stops before the next one |
| `Receivelog.StreamCtl.CloseNoRename` | internal/core/xlog/walfile.go:232-256 | closes and fsyncs without changing any name |
| `Receivelog.StreamCtl.CloseWalFileIfPresentNoRename` | internal/core/xlog/walfile.go:221-230 | after an error the file is closed without changing any name, and flushed if no call fails; the session is over |
| `Receivelog.StreamCtl.ProcessXLogDataMsg` | internal/core/xlog/receivelog.go:409-500 | if no call fails, data is accepted exactly at the current in-segment offset; on success all of it has been received, cut at segment boundaries |
| `Receivelog.StreamCtl.ReceiveChunk` | internal/core/xlog/receivelog.go:446-496 | one turn of that loop: open if needed, write, close at the segment end; it succeeds if no call fails |
| `Receivelog.StreamCtl.ProcessKeepaliveMsg` | internal/core/xlog/receivelog.go:370-407 | a requested reply flushes what is open and sends exactly one status, on the first timeline with flush equal to write; without a request nothing changes |
| `Receivelog.StreamCtl.SendFeedback` | internal/core/xlog/receivelog.go:502-533 | one status update with the received and the flushed position |
| `Receivelog.StreamCtl.HandleEndOfCopyStream` | internal/core/xlog/receivelog.go:535-552 | no name changes at the end of the stream, stopPos is what was received, and the directory is the cut stream |
| `Receivelog.StreamCtl.ProcessOneMsg` | internal/core/xlog/receivelog.go:306-368 | each message moves the received position by its payload and sends exactly what it is to send; if no call fails, exactly the acceptable messages succeed |
| `Receivelog.StreamCtl.FlushAndReport` | internal/core/xlog/receivelog.go:226-261 | on success exactly the due statuses have been sent: one with flush equal to write if anything was unflushed, then the periodic one if it is time; if no call fails it succeeds |
| `Receivelog.StreamCtl.DrainMessages` | internal/core/xlog/receivelog.go:282-301 | messages are processed in order until a timeout, the end of the stream or an error; what has been sent and what is still to be sent make up the story of the stream throughout |
| `Receivelog.StreamCtl.HandleCopyStream` | internal/core/xlog/receivelog.go:219-304 | on success the received position is the start plus all payloads, the directory is the cut stream, and exactly the statuses that `CopyStream.Stream` lists have been sent; on failure no others; if no call fails they all are, and it succeeds exactly when an announcement comes before a refused message and before the connection is lost |
| `Receivelog.StreamCtl.ReceiveTurn` | internal/core/xlog/receivelog.go:223-302 | a turn flushes and reports first, then receives up to a timeout, the end or an error; with no failing call it leaves nothing of its part of the story unsent |
| `CopyStream.TimeoutIsReported` | internal/core/xlog/receivelog.go:226-249 | whenever the input was drained after everything up to p was received, p inside a segment and not yet flushed, a status with write and flush equal to p is among those to be sent |
| `CopyStream.DueIsReported` | internal/core/xlog/receivelog.go:251-261 | every turn that begins when a periodic status is due sends one with exactly what has been received, all of it flushed if inside a segment |
| `CopyStream.RequestIsAnswered` | internal/core/xlog/receivelog.go:370-407 | every requested reply is sent, with exactly what has been received, all of it flushed if inside a segment |
| `CopyStream.StatusIsJustified` | internal/core/xlog/receivelog.go:219-304 | conversely every status is sent at the beginning of a turn or on request, names exactly what has been received by then, and flushes no more |
| `CopyStream.StreamRises` | internal/core/xlog/receivelog.go:226-261 | the flush positions of one stream ascend |
| `CopyStream.StreamEndsExactly` | internal/core/xlog/receivelog.go:282-301 | the stream ends well exactly when an announcement comes in time, with everything before it received |
| `CopyStream.AnnouncementEnds` | internal/core/xlog/receivelog.go:535-552 | an announcement after everything up to p ends the stream at p, with p flushed unless nothing was received from a segment boundary on |
| `CopyStream.AnnouncementIsFollowed` | internal/core/xlog/receivelog.go:163-197 | on one of the timelines that can be streamed, an announcement is followed exactly if it names a later timeline that starts no later than p; then the session goes on there, at the beginning of the segment that holds the announced position; otherwise the chain ends |
| `CopyStream.NothingIsFollowed` | internal/core/xlog/receivelog.go:107-160 | a timeline beyond the last one, or a stream that does not end well, ends the chain |
| `CopyStream.ChainRises` | internal/core/xlog/receivelog.go:185-197 | however many timelines follow, the flush positions sent on the first one ascend |
| `Receivelog.StreamCtl.ReceiveTimeline` | internal/core/xlog/receivelog.go:107-198 | one timeline: it is left for the next one only for an announcement that may be followed, with the hop to the segment of the announced position, and always then if no call fails; the statuses sent are those of its stream, or a prefix if a call fails |
| `Receivelog.StreamCtl.FollowAnnouncement` | internal/core/xlog/receivelog.go:163-197 | the announced timeline is followed exactly if it is later than the current one and starts no later than where that stopped |
| `Receivelog.StreamCtl.ReceiveXlogStream` | internal/core/xlog/receivelog.go:99-217 | the timelines followed and the statuses sent are a prefix of what `CopyStream.SagaOf` derives from the script of the server, and all of it if no call fails; timelines grow strictly with aligned starts no later than where the previous one stopped, at most 2^31 of them; it always ends in an error, even after a controlled shutdown; among all statuses sent, the flush positions of the first timeline ascend |
| `Receivelog.StreamCtl.SwitchTimeline` | internal/core/xlog/receivelog.go:185-197 | the next timeline starts at the beginning of the segment that holds the announced position |
| `Receivelog.StreamCtl.FlushWindow` | internal/core/xlog/receivelog.go:227-249 | with a file open its position is the segment offset of what was received and the flush position lies in between; with none open they are equal |
| `Receivelog.StreamCtl.SentIsDurable` | internal/core/xlog/receivelog.go:502-533 | on the first timeline everything below every flush position sent is durable |
| `Receivelog.StreamCtl.CutStream` | internal/core/xlog/receivelog.go:409-500 | between messages and after the end of the stream the methods leave the directory that the pure layout function says |
| `Receivelog.TraceKeeps` | internal/core/xlog/receivelog.go:219-304 | the protocol invariants hold at every state the methods pass through |
| `XLog.PowerOf2Exactly` | internal/core/xlog/xlog_internal.go:22-25 | the bit test accepts exactly the powers of two |
| `XLog.SegSizeDivides` | internal/core/xlog/xlog_internal.go:27-44 | a valid segment size divides 2^32 |
| `XLog.OffsetIsRemainder` | internal/core/xlog/xlog_internal.go:36-39 | the masked offset is the remainder by the segment size |
| `XLog.LsnRebuilt` | internal/core/xlog/xlog_internal.go:32-51 | segment start plus masked offset is the position again |
| `XLog.RecPtrExact` | internal/core/xlog/xlog_internal.go:46-51 | the start of a segment number is exact if and only if it fits in 64 bits |
| `XLog.StrspnHex` | internal/core/xlog/xlog_internal.go:69-78 | the longest prefix of upper-case digits |
| `XLog.MatchXLogFileName` | internal/core/xlog/xlog_internal.go:80-83 | true exactly for 24 upper-case hexadecimal digits |
| `XLog.MatchPartialXLogFileName` | internal/core/xlog/xlog_internal.go:85-91 | true exactly for such a name followed by the partial suffix |
| `XLog.NameRoundTrip` | internal/core/xlog/xlog_internal.go:54-58 | reading a name back gives timeline and segment number, whatever follows the name |
| `XLog.NameWellFormedExactly` | internal/core/xlog/xlog_internal.go:54-58 | a name is well formed exactly for 32-bit timelines and segments of the 64-bit log |
| `XLog.NameRewritten` | internal/core/xlog/xlog_internal.go:96-126 | writing a parsed name gives it back exactly when its last part is below the segments per log id |
| `WalNames.NameOrder` | internal/opt/supervisors/backupsv/retain.go:131-136 | string order of segment names, in either case, is the order of timeline, then segment number |
| `WalNames.FileNameOrder` | internal/opt/supervisors/backupsv/retain.go:131-136 | the same for names as the receiver writes them |
| `StreamingStart.CollectEntries` | internal/core/xlog/pg_receivewal.go:264-308 | the entries are exactly those of partial names and of complete names with the right size |
| `StreamingStart.FindStreamingStart` | internal/core/xlog/pg_receivewal.go:256-340 | the entry found has the greatest segment, among these the greatest timeline, and is complete if any of those is; the start is the beginning of a partial and the end of a complete one; no entries if and only if none counts |
| `StreamingStart.NewestIsRestart` | internal/core/xlog/pg_receivewal.go:314-339 | over a directory of the receiver the newest entry is where the protocol restarts |
| `StreamingStart.NothingToFind` | internal/core/xlog/pg_receivewal.go:310-312 | some entry counts exactly when the protocol sees a segment |
| `StreamingStart.FirstPositionDecides` | internal/core/xlog/pg_receivewal.go:182-203 | the first non-zero position of directory, slot and server decides: the start is the beginning of the segment that holds it, on its timeline, and there is none exactly if its timeline is 0 or all positions are 0 |
| `StreamingStart.EmptyStartsAtRestart` | internal/core/xlog/pg_receivewal.go:182-203 | with no segment in the directory and a slot no later than what was acknowledged, the session starts at the slot, where the protocol may restart |
| `StreamingStart.SessionStartsAtRestart` | internal/core/xlog/pg_receivewal.go:172-203 | with a segment in the directory the session starts at the restart position, unless that is position 0 |
| `Sorting.Sort` | internal/core/xlog/pg_receivewal.go:314-323 | sorting gives an ordered permutation |
| `Retention.ChooseRecoveryWindowAnchor` | internal/opt/supervisors/backupsv/retain.go:18-73 | the last admissible backup: keeping from it on keeps at least min(max(keep_last, 1), n) backups, one from before the window if there was one, and all backups of the window |
| `Retention.BackupsOlderThanAnchor` | internal/opt/supervisors/backupsv/retain.go:75-90 | exactly the names of backups started before the anchor, in the order of names |
| `Retention.BackupBeginWAL` | internal/opt/supervisors/backupsv/recovery_window_retention.go:139-180 | the name of the segment of the first usable manifest range, else of the start position, else empty |
| `Retention.BeginContainsStart` | internal/opt/supervisors/backupsv/recovery_window_retention.go:139-180 | the begin WAL of a manifest names the segment that contains the start position of its first usable range, else of the backup, on the timeline of that range, else of the backup; it is empty exactly if that position or timeline is 0 |
| `Retention.RecoveryWindowRetention.LoadSuccessfulBackups` | internal/opt/supervisors/backupsv/recovery_window_retention.go:88-137 | exactly the directories with a readable manifest, a start time and a begin WAL, each once |
| `Retention.RecoveryWindowRetention.DeleteBackups` | internal/opt/supervisors/backupsv/backup_store.go:80-140 | only requested backups go, on success all of them; every intermediate state is lawful |
| `Retention.RecoveryWindowRetention.CleanObject` | internal/opt/supervisors/backupsv/wal_cleaner.go:44-83 | an object goes only if it is a root-level segment below the boundary; with it go only its own variants; the state after every single backend deletion is lawful |
| `Retention.RecoveryWindowRetention.DeleteBefore` | internal/opt/supervisors/backupsv/wal_cleaner.go:29-92 | on success no such object is left; on any outcome nothing else is removed |
| `Retention.RecoveryWindowRetention.RunBeforeBackup` | internal/opt/supervisors/backupsv/recovery_window_retention.go:38-86 | on any outcome and at every intermediate state: at least min(max(keep_last, 1), n) of the n successful backups are in storage, one from before the window if there was one, and all from within the window; only older backups are gone, WAL only below the anchor and only after them; monotone backups that are left can be restored, with every archived segment from the one that holds their start position on untouched; if no call fails the pass succeeds |
| `Retention.WindowIsCovered` | internal/opt/supervisors/backupsv/retain.go:18-73 | for every time in the window: a successful backup started at or before it is in storage exactly if there was one |
| `Retention.LawfulKeepsEnough` | internal/opt/supervisors/backupsv/retain.go:18-90 | in every lawful state enough of the successful backups are left in storage, one from before the window if there was one, and all from within the window |
| `Retention.LawfulIsRestorable` | internal/opt/supervisors/backupsv/recovery_window_retention.go:75-85 | in a lawful state every remaining backup has all the archived WAL it had from its begin WAL on |
| `Retention.RestorableFromStart` | internal/opt/supervisors/backupsv/recovery_window_retention.go:75-85 | every remaining backup keeps each archived segment that contains or follows the start position of its manifest |
| `Retention.HarmExactly` | internal/opt/supervisors/backupsv/recovery_window_retention.go:75-85 | a complete pass harms a backup it keeps if and only if, before the pass, some archived segment is not below the begin WAL of a backup started at or after the anchor but below that of the anchor |
| `Retention.CrossedSegment` | internal/opt/supervisors/backupsv/wal_cleaner.go:50-65 | such a segment by number: not before the begin of the kept backup, and before that of the anchor, in timeline and segment number |
| `Retention.PassCanHarm` | internal/opt/supervisors/backupsv/recovery_window_retention.go:75-85 | for every segment size a concrete input: two backups, the later of which begins one segment earlier, and a complete lawful pass, in which everything older and everything doomed is gone, after which it cannot be restored |
| `Retention.ArchivedSegment` | internal/opt/supervisors/backupsv/wal_cleaner.go:50-65 | for names as the receiver writes them, under any suffix: deleted exactly if earlier in timeline and segment number than the begin WAL, needed exactly otherwise |
| `WalNames.SegmentIsItself` | internal/opt/supervisors/backupsv/retain.go:92-129 | a segment file name is a root path and its own normal form |
| `Retention.KeptBackups` | internal/opt/supervisors/backupsv/retain.go:75-90 | the anchor and every later backup are kept |
| `WalNames.NormalizeWALFilename` | internal/opt/supervisors/backupsv/retain.go:92-129 | the stripping loop ends in the name without transformation suffixes, classified as segment, history or neither |
| `WalNames.StemAppended` | internal/opt/supervisors/backupsv/retain.go:92-109 | appending a storage suffix does not change the stripped name |
| `WalNames.VariantsAlike` | internal/opt/supervisors/backupsv/wal_cleaner.go:94-99 | variants of a root-level segment are root-level segments of the same name |
| `WalNames.RootHasNoTrailingSlash` | internal/opt/supervisors/backupsv/wal_cleaner.go:94-99 | a root-level path does not end in a slash |
| `WalNames.NestedIsNotDoomed` | internal/opt/supervisors/backupsv/wal_cleaner.go:94-99 | an object below a directory is never deleted |
| `WalNames.DoomedIsSegment` | internal/opt/supervisors/backupsv/wal_cleaner.go:50-65 | what may be deleted is named by 24 hexadecimal digits and nothing but transformation suffixes |
| `WalNames.HistoryIsNotDoomed` | internal/opt/supervisors/backupsv/wal_cleaner.go:50-65 | history files stay, under any suffix |
| `WalNames.BoundaryOrder` | internal/opt/supervisors/backupsv/retain.go:131-136 | not being before a boundary carries over to smaller boundaries |
| `ChunkedCrypt.RoundTrip` | internal/opt/shared/streamcrypt/crypt/aesgcm/aesgcm.go:144-170 | decrypting an encrypted stream gives the plaintext back, whatever its length |
| `ChunkedCrypt.FramesOpen` | internal/opt/shared/streamcrypt/crypt/aesgcm/aesgcm.go:179-204 | the frames of a plaintext open to it |
| `ChunkedCrypt.FramesAreChunks` | internal/opt/shared/streamcrypt/crypt/aesgcm/aesgcm.go:98-142 | the stream is one frame per chunk; the chunks make up the plaintext and all but the last are 64 KiB |
| `ChunkedCrypt.NoncesDistinct` | internal/opt/shared/streamcrypt/crypt/aesgcm/aesgcm.go:127-130 | counters below 2^64 have pairwise distinct nonces |
| `ChunkedCrypt.NonceIsCounter` | internal/opt/shared/streamcrypt/crypt/aesgcm/aesgcm.go:127-130 | the nonce is four zero bytes and the counter, most significant byte first |
| `ChunkedCrypt.Writer.Write` | internal/opt/shared/streamcrypt/crypt/aesgcm/aesgcm.go:98-116 | after a write everything written is in full frames or in the buffer |
| `ChunkedCrypt.Writer.Flush` | internal/opt/shared/streamcrypt/crypt/aesgcm/aesgcm.go:127-142 | one frame for the buffer, under the next counter |
| `ChunkedCrypt.Writer.Close` | internal/opt/shared/streamcrypt/crypt/aesgcm/aesgcm.go:118-125 | after closing the output is the framing of all that was written |
| `ChunkedCrypt.Encrypt` | internal/opt/shared/streamcrypt/crypt/aesgcm/aesgcm.go:60-125 | the stream does not depend on how the plaintext was split into writes; it is produced if no write fails |
| `ChunkedCrypt.Reader.ReadSome` | internal/opt/shared/streamcrypt/crypt/aesgcm/aesgcm.go:179-204 | delivers the next bytes of the plaintext, at most as many as asked for; end and corruption are told apart |
| `ChunkedCrypt.Reader.ReadAll` | internal/opt/shared/streamcrypt/crypt/aesgcm/aesgcm.go:179-204 | any non-empty buffer sizes deliver exactly the plaintext, then the end |
| `ChunkedCrypt.Decrypt` | internal/opt/shared/streamcrypt/crypt/aesgcm/aesgcm.go:144-170 | if no read fails, exactly the plaintext of an intact stream, and an error exactly for a damaged one |
| `Variants.SupportedExts` | internal/opt/shared/storecrypt/dynstor.go:89-114 | the suffixes of the configured algorithms, in order of priority |
| `Variants.TransformsOfVariant` | internal/opt/shared/storecrypt/dynstor.go:124-158 | on a logical name plus suffix the stored name is read as what the suffix means |
| `Variants.VariantsDistinct` | internal/opt/shared/storecrypt/dynstor.go:160-179 | no two variants of logical names share a stored name |
| `Variants.DecodeVariant` | internal/opt/shared/storecrypt/dynstor.go:166-179 | decoding the stored name of a variant gives the logical name |
| `Storage.DecodeEncode` | internal/opt/shared/streamcrypt/pipe/pipe.go:12-93 | compress then encrypt is undone by decrypt then decompress |
| `Storage.StoredFormat` | internal/opt/shared/storecrypt/dynstor.go:124-158 | what is stored under each suffix: the data compressed as the suffix says, then sealed as it says |
| `Storage.AesCodecLossless` | internal/opt/shared/streamcrypt/crypt/aesgcm/aesgcm.go:60-170 | the chunked encryption is such a lossless transformation |
| `Storage.PutThenGet` | internal/opt/shared/storecrypt/dynstor.go:198-250 | Get after Put returns the data exactly if it is visible, and else what it returned before, for all names |
| `Storage.FetchBest` | internal/opt/shared/storecrypt/dynstor.go:181-196 | a logical name reads as its variant of highest priority |
| `Storage.FetchAnswers` | internal/opt/shared/storecrypt/dynstor.go:215-250 | a suffixed name reads as that object alone; a missing object and a name without variants are not found, an object that does not decode is an error |
| `Storage.OthersUnchanged` | internal/opt/shared/storecrypt/dynstor.go:278-289 | changes to variants of one logical name do not show under another |
| `Storage.RenameMoves` | internal/opt/shared/storecrypt/dynstor.go:316-347 | renaming a logical name to another one without variants moves the entry |
| `Storage.MoveAllMoves` | internal/opt/shared/storecrypt/dynstor.go:316-347 | between logical names, moving the variants one after the other leaves every stored name holding what moving them all at once leaves there |
| `Storage.VariadicStorage.Put` | internal/opt/shared/storecrypt/dynstor.go:198-213 | stores the encoded data under the one encoded name |
| `Storage.VariadicStorage.Get` | internal/opt/shared/storecrypt/dynstor.go:215-250 | answers as the lookup function says, or with a backend error if a call fails |
| `Storage.VariadicStorage.FindExistingName` | internal/opt/shared/storecrypt/dynstor.go:181-196 | the first existing variant in order of priority |
| `Storage.VariadicStorage.Delete` | internal/opt/shared/storecrypt/dynstor.go:275-289 | removes all variants of a name and nothing else; after each single backend deletion only variants of that name are missing |
| `Storage.VariadicStorage.Rename` | internal/opt/shared/storecrypt/dynstor.go:316-347 | for all names: on success the variants have been moved in order; between logical names, whatever fails, after every backend call each variant is under its old or its new name and no other object has changed |
| `BaseBackup.ReadCString` | internal/opt/basebackup/backup/stream_bb.go:276-283 | splits at the first zero byte, fails exactly if there is none |
| `BaseBackup.ArchiveNameExactly` | internal/opt/basebackup/backup/stream_bb.go:159-170 | an archive has a name exactly if its mark holds two zero bytes; the name is what comes before the first one, without one leading "./" |
| `BaseBackup.ArchiveNameOf` | internal/opt/basebackup/backup/stream_bb.go:159-170 | a name, a path and the rest, separated by zero bytes, give that name, without one leading "./" |
| `BaseBackup.StreamingFile.Write` | internal/opt/basebackup/backup/streaming_file.go:55-79 | all bytes are handed to the background Put, or an error |
| `BaseBackup.StreamingFile.Close` | internal/opt/basebackup/backup/streaming_file.go:81-107 | the first close succeeds only if the Put stored all that was written |
| `BaseBackup.SectionStep` | internal/opt/basebackup/backup/stream_bb.go:147-234 | a message extends the section of the last mark and no other |
| `BaseBackup.ArchiveBytesStep` | internal/opt/basebackup/backup/stream_bb.go:198-204 | only data of archives adds to the byte count |
| `BaseBackup.BaseBackup.CloseCurrent` | internal/opt/basebackup/backup/stream_bb.go:122-131 | after closing, every archive started so far is stored |
| `BaseBackup.BaseBackup.StartSection` | internal/opt/basebackup/backup/stream_bb.go:152-175 | a new archive or manifest first completes the current archive |
| `BaseBackup.BaseBackup.WriteArchive` | internal/opt/basebackup/backup/stream_bb.go:193-204 | archive data extends the current archive only |
| `BaseBackup.BaseBackup.StreamBaseBackup` | internal/opt/basebackup/backup/stream_bb.go:87-274 | under the name its mark begins with, each archive is the data between its start and the next mark or end, the manifest the data since the last manifest start, the byte count the sum of archive lengths; if no call fails it succeeds exactly when the end of the stream comes before a refused message and the manifest can be parsed |
| `BaseBackup.BaseBackup.StreamBackup` | internal/opt/basebackup/backup/stream_bb.go:63-85 | the marker object changes only after every archive has been stored under its own name |
| `Multipart.NormalizePartSize` | internal/opt/shared/storecrypt/s3util.go:11-22 | 16 MiB for sizes that are not positive; otherwise the size between 5 MiB and 5 GiB nearest to the requested one |
| `Multipart.ChooseUploadPartSize` | internal/opt/shared/storecrypt/s3util.go:98-127 | whole MiB in range; 10000 parts suffice exactly for sizes up to 10000 times 5 GiB; the next smaller MiB would not do |
| `Multipart.CountWithin` | internal/opt/shared/storecrypt/s3util.go:115-118 | the number of parts is within a bound exactly when so many parts hold the object |
| `Multipart.Bucket.UploadParts` | internal/opt/shared/storecrypt/s3multipart.go:69-128 | the uploaded parts are the split of the source, numbered from 1, at most 10000 |
| `Multipart.Bucket.PutMultipartStream` | internal/opt/shared/storecrypt/s3multipart.go:45-166 | success stores the source; errors after creation and empty sources abort the upload; nothing else changes; if no call fails it succeeds exactly when 10000 parts hold the source |
| `Multipart.SplitCount` | internal/opt/shared/storecrypt/s3multipart.go:72-128 | the number of parts is the length divided by the part size, rounded up |
| `Multipart.JoinedPieces` | internal/opt/shared/storecrypt/s3multipart.go:149-156 | completing the parts in order gives the concatenation of the pieces |
| `Pieces.SplitPieces` | internal/opt/shared/storecrypt/s3multipart.go:72-128 | pieces make up the data, all but the last are full, none is empty |
| `UploadPool.FilterFilesToUpload` | internal/opt/supervisors/receivesv/upload.go:28-52 | exactly the present files other than the manifest and the open segment |
| `UploadPool.CompleteIsUploaded` | internal/opt/supervisors/receivesv/upload.go:28-52 | a complete segment file that is present is in the batch exactly if it is not the open one; the manifest never is |
| `UploadPool.PartialIsUploaded` | internal/opt/supervisors/receivesv/upload.go:28-52 | a partial file is in the batch exactly if it is not the one open right now |
| `UploadPool.NeverLost` | internal/opt/supervisors/receivesv/upload.go:54-148 | in every interleaving each file of the batch is local or fully stored at every step; no file is taken twice |
| `UploadPool.AllAttempted` | internal/opt/supervisors/receivesv/upload.go:54-110 | without cancellation every file has been tried when the workers are gone; without an error it is stored and removed |
| `UploadPool.StepKeeps` | internal/opt/supervisors/receivesv/upload.go:54-148 | every step keeps the first-in-first-out order, the location of every file and the progress record |
| `UploadPool.PutFailsKeeps` | internal/opt/supervisors/receivesv/upload.go:124-129 | a failed Put leaves the local file |
| `UploadPool.RemoveKeeps` | internal/opt/supervisors/receivesv/upload.go:131-139 | the local file goes only after it has been stored |
| `UploadPool.LeaveKeeps` | internal/opt/supervisors/receivesv/upload.go:74-78 | a worker that leaves on cancellation drops its file, which stays local |
| `UploadPool.PoolTerminates` | internal/opt/supervisors/receivesv/upload.go:90-110 | every step of the pool decreases a measure |
| `UploadPool.NoDeadlock` | internal/opt/supervisors/receivesv/upload.go:65-100 | until all workers are gone some step is possible |
| `Uploads.JointRunIsBoth` | internal/opt/supervisors/receivesv/upload.go:54-148 | receiver and upload workers together: every joint run is a run of the receiver protocol with uploads and a run of the pool, and what both see of directory and archive agrees throughout |
| `Uploads.FinalsStay` | internal/core/xlog/walfile.go:202-210 | nothing but uploads and machine crashes changes what a process sees of a complete segment file |
| `Uploads.WorkersAreNotBlocked` | internal/opt/supervisors/receivesv/upload.go:112-148 | whatever a worker can do next, directory and archive can follow |
| `Uploads.AcknowledgedBytesHaveCopies` | internal/opt/supervisors/receivesv/upload.go:112-148 | in every joint run, at every moment after a flush position was reported and after any crash: each byte below it is in the object a file of the batch has become, in an object stored before, or in the durable copy of its segment file |
| `BackupSlot.BackupState.Begin` | internal/opt/supervisors/backupsv/state.go:48-72 | takes the slot if and only if it is free |
| `BackupSlot.BackupState.Finish` | internal/opt/supervisors/backupsv/state.go:74-86 | releases the slot and records the outcome |
| `BackupSlot.BackupRunner.Reserve` | internal/opt/supervisors/backupsv/runner.go:65-76 | a slot exactly if not canceled and free; the answer is the own run |
| `BackupSlot.BackupRunner.RunReserved` | internal/opt/supervisors/backupsv/runner.go:78-119 | retention, then backup unless retention failed or the context was canceled; whatever happens one Finish with the matching status |
| `BackupSlot.BackupRunner.Run` | internal/opt/supervisors/backupsv/runner.go:39-45 | an accepted run takes and releases the slot exactly once and ends as retention, cancellation and backup say; a refused one does nothing |
| `BackupSlot.NoOverlap` | internal/opt/supervisors/backupsv/runner.go:39-63 | in every interleaving at most one run is in retention or backup, and Running holds exactly while some run holds the slot |
| `BackupSlot.OneFinishPerBegin` | internal/opt/supervisors/backupsv/runner.go:47-119 | each Begin has at most one Finish, exactly one once the run is over; an asynchronous start is answered with its own run |
| `BackupSlot.SlotMovesOn` | internal/opt/supervisors/backupsv/runner.go:78-119 | the run that holds the slot can always go on, and a free slot can be taken |

## Left out

- WalSafety.AcknowledgedBytesSurvive: runs contain neither a timeline switch nor the removal of a partial file that is still needed, because these break the invariants; `WalRecovery` says exactly when.
- WalRecovery.RestartSkipsNothing: assumes sessions that start from a settled directory and no uploads from the receive directory, because an uploaded segment no longer marks the restart position; `WalRecovery.RestartIsCovered` says what holds without these assumptions.
- WalLayout.DirectoryIsCutStream: assumes that nothing is uploaded from the directory, because an upload removes the file.
- Uploads.JointRunIsBoth: one batch in one life of the process, complete segment files only; which files a batch names is `UploadPool.FilterFilesToUpload`.
- Receivelog.StreamCtl.SentIsDurable: holds up to the first timeline switch, because the flush position is carried over it.
- Receivelog.StreamCtl.HandleCopyStream: uploads and machine crashes are steps of the protocol but not of the object's own history; a crash ends the process.
- Receivelog.StreamCtl.ReceiveXlogStream: positions are unbounded numbers; the history file of a timeline is only a call that may fail.
- StreamingStart.SessionStartsAtRestart: excludes position 0, which the program takes for nothing found.
- Storage.VariadicStorage.Rename: says nothing about failures between names that decode to names with a suffix, because variants of these can overwrite each other during the loop.
- WalNames.NormalizeWALFilename: letter case and white space are those of single-byte characters.
- Retention.RecoveryWindowRetention.DeleteBackups: a directory whose deletion has begun counts as gone; partial effects inside one directory are not modelled.
- BaseBackup.BaseBackup.StreamBaseBackup: archive names are taken to be distinct; a Put abandoned after an unexpected message is not followed further.
- Multipart.Bucket.PutMultipartStream: sources with a known size go through a library and are not modelled beyond the choice of the part size.
- ChunkedCrypt.Reader.ReadSome: the counter that the reader keeps but never uses is not modelled.
- Uploads of partial files that are closed but may be reopened.
- Network connections, replication slots, HTTP servers, command line, configuration, logging, metrics and timers.
- The S3, SFTP and local file backends, gzip, zstd, AES-GCM and Argon2 themselves.
- Restoring: tablespace placement and tar extraction.
- The user interface, pagination and restore-readiness display.
