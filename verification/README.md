# Verified model of cterm's Kitty file transfer and drag and drop

cterm lets a program on the far side of a terminal send files to the user's machine and fetch files
from it (Kitty's OSC 5113, "File transfer over the TTY"), and lets the user drop data onto the
terminal (OSC 72). This project models the code of `cterm-app` that does this and proves what it
promises. It has five parts, each in the form the program has it: classes and loops over buffers
where the program updates objects in place, functions where it computes values. Every method is
proved against a specification function or relation, and the theorems are about those.

- **Binary deltas** (`RollingChecksums`, `Signatures`, `DeltaFormat`, `DeltaWriter`, `DeltaPatcher`,
  `DeltaMeaning`, `DeltaRoundTrip`). The streaming matcher over its ring buffer emits exactly the
  delta of a left-to-right matcher that hashes every window afresh, runs merged, literals cut at 64
  KiB. The incremental patcher succeeds exactly on the encodings of applicable operations that end
  in one matching checksum, however its input is cut, and then its output is their meaning. Offering
  a base, writing a delta and patching gives back the source.
- **Consent** (`TransferManager`, `ConsentSafety`, `ConsentTokens`, `SessionCommands`, `Approvals`).
  Over every run of calls, whatever is handed to the filesystem was prompted for, then approved with
  its own token, by the same uninterrupted session; an approval releases just the path requests that
  came, in order, and the executor lists them all before it completes the listing
  (`ApprovedListings`). Abnormal ends abort before they answer. Stale tokens do nothing.
- **Sending** (`StagedDeltas`, `SendSessions`, `SendBudget`, `SendRuns`, `SendAdmissions`,
  `SendContents`, `SendLinks`, `SendPublication`, `SendFilesystem`, `SendFinish`, `SendDeliveries`,
  `SendWitnesses`). Reserved, consumed and written bytes obey the session budget over every run; a
  declared size that was admitted can be written; Finish changes nothing unless every entry is
  complete and every link resolved, and then publishes exactly the data that was sent, where the
  path of its own command was resolved to.
- **Receiving** (`ReceiveTree`, `ReceiveSessions`, `ReceiveFrames`, `ReceiveFilesystem`,
  `ReceiveRuns`, `ReceiveSources`, `ReceiveFetches`, `TransferFilesystem`, `Coupling`,
  `ApprovedListings`). Trees are listed whole exactly when they fit; every listed source is handed
  out once, in listing order, and stands for the node that an approved path had under that name;
  frames are canonical; a file fetched by delta arrives as it was listed; and manager and executor
  never disagree on which sessions are approved.
- **Drag and drop** (`DndMimes`, `DndFrames`, `DndDestinations`, `DndRuns`, `DndConsent`,
  `DndOlderChunks`, `DndChunks`, `DndServing`). An accepted operation never outlives the offer it
  was given for; data is retained only under an acceptance that began for the offer at hand, and on
  its list once it is whole; a request for an item gets that item; and chunked messages mean what
  their joined payload means. A list of types is not tied to its offer as the operation is: see
  "Where a promise ends".

Readers, writers and files are byte sequences; a read may return any part of what was asked for. The
strong hashes are a parameter (`ByteStreams.Hashes`). The round trip assumes that the 64-bit hash
tells the blocks of the base from the windows of the source where they differ
(`DeltaRoundTrip.CollisionFree`); nothing else assumes anything of it. How the operating system
answers (paths, staging files, renames, disk room) comes in as `StageIo`, `WriteIo`, `CommitIo`,
`FilesIo` and `Found` values, which the theorems quantify over.

## Where a promise ends

- A declared size admitted by a send session can be written in full as long as the session rejected
  no entry and no link holds data (`SendRuns.AdmissionIsAPromise`). Neither condition can be
  dropped: five accepted bytes of link data (`SendWitnesses.LinkDataBreaksThePromise`) or one file
  that overruns and is rejected (`SendWitnesses.RejectionBreaksThePromise`) leave an admitted file
  without room, because those bytes stay consumed while nothing is reserved for them.
  `SendRuns.PlainDataIff` gives the exact condition under which one write goes through.
- A delta is written exactly when every merged run of blocks fits its 32-bit length field
  (`DeltaWriter.WriteDelta`); a base of at most 2^32 blocks always does
  (`DeltaRoundTrip.RunsEncodable`).
- The comment at kitty_file_transfer_fs.rs:519-522 says that every writer is tightened before use.
  For a delta only the patcher in front of the staging file gets the present limit; the staging file
  keeps the one it was created with, and a delta staged while the session was full takes nothing
  even after room has become free (`SendWitnesses.CreationLimitIsKept`). `SendRuns.DeltaDataIff`
  says exactly when delta bytes go through.
- Consumed bytes can pass the session limit: a refused chunk of link data is charged in full
  (`SendWitnesses.ConsumedMayPassTheLimit`). Nothing else does it: they stay within the limit
  exactly as long as no data comes for an incomplete link that the session has no room for
  (`SendRuns.ConsumedStepIff`, `SendRuns.ConsumedWithinIff`).
- A change of the offer takes back the accepted operation and list, but not the chunks of an
  acceptance that is being collected (kitty_dnd.rs:196-202). Its last chunk then puts the old list
  in force for the new offer, and a drop may be retained on it while the next acceptance is
  unfinished (`DndOlderChunks.OlderListIsHonoured`). This can happen exactly when chunks were being
  collected as the offer changed (`DndConsent.OlderChunksCountIff`); an acceptance that is already
  being discarded leaves nothing behind (`DndConsent.DiscardedLeavesNothing`). Without it, every
  list belongs to the offer that hovers (`DndConsent.MimesWereGiven`).

## Model

| member | source | states |
|---|---|---|
| `RollingChecksums.RollingChecksum.constructor` | crates/cterm-app/src/kitty_rsync.rs:426-439 | the wrapping 16-bit loop computes the sum and weighted sum of the block modulo 2^16, at any block length |
| `RollingChecksums.RollingChecksum.Roll` | crates/cterm-app/src/kitty_rsync.rs:441-450 | dropping the oldest byte and adding one leaves the checksum of the slid window, also for windows of 65536 bytes and more |
| `RollingChecksums.Slide` | crates/cterm-app/src/kitty_rsync.rs:441-450 | the two update formulas, for any window: the rolled pair of sums is that of the next window |
| `RollingChecksums.ChecksumFields` | crates/cterm-app/src/kitty_rsync.rs:452-454 | the packed checksum has the plain byte sum modulo 2^16 in its two low bytes and the weighted one in its two high bytes |
| `Signatures.RecordRoundTrip` | crates/cterm-app/src/kitty_rsync.rs:92-131 | a block record decodes to what was encoded, and encodes to what was decoded |
| `Signatures.WriteSignature` | crates/cterm-app/src/kitty_rsync.rs:92-131 | succeeds exactly when the source has the announced size, and writes the signature of all its blocks, a short last one included, however its reads are cut; every field of every record is laid out as stated byte by byte |
| `Signatures.SignatureLaidOut` | crates/cterm-app/src/kitty_rsync.rs:92-131 | where everything sits in the written bytes: eight zero bytes, the block size, and from 12 + 20k on, for block k, its number in 8 bytes, the sum of its bytes modulo 2^16 in 2, the sum of its bytes weighted by their distance from the end modulo 2^16 in 2, and its strong hash in 8, all least byte first |
| `Signatures.SignatureLength` | crates/cterm-app/src/kitty_rsync.rs:92-131 | a signature is 12 bytes and 20 for each block, counting a partial one, and stays below 2^64 for supported block sizes |
| `Signatures.Parse` | crates/cterm-app/src/kitty_rsync.rs:38-79 | succeeds exactly on data within the size limit that has a zero header, a supported block size and whole records, says which error otherwise, and indexes the first record of each pair of hashes |
| `Signatures.WellFormedIff` | crates/cterm-app/src/kitty_rsync.rs:38-66 | what parses: at least 12 bytes, of which the first 8 are zero and the last 4 a block size from 1 to 1 MiB, then whole records of 20 bytes, within the size limit |
| `Signatures.InsertKeepsFirst` | crates/cterm-app/src/kitty_rsync.rs:67-77 | adding a record to the two-level index never displaces an earlier record with the same hashes |
| `Signatures.ParseWritten` | crates/cterm-app/src/kitty_rsync.rs:38-131 | parsing what was written succeeds and yields exactly the records of the data |
| `Signatures.FirstIndexIsLeast` | crates/cterm-app/src/kitty_rsync.rs:81-84 | the record found for a pair of hashes is the first one, and none is found only when there is none |
| `DeltaRoundTrip.MatchIsLeast` | crates/cterm-app/src/kitty_rsync.rs:81-84 | looking up a full window finds the least block of the base with that content, and nothing exactly when no block has it |
| `DeltaRoundTrip.NaiveIsGreedy` | crates/cterm-app/src/kitty_rsync.rs:136-198 | by content alone: wherever a full window equals a block of the base the least such block is copied, else one byte is sent, and what no window fits is sent as it is |
| `DeltaFormat.CanonExpands` | crates/cterm-app/src/kitty_rsync.rs:463-535 | merging block runs and gathering literals keeps the token stream, and its result is canonical: no two mergeable neighbours, no empty or oversized literal |
| `DeltaFormat.CanonUnique` | crates/cterm-app/src/kitty_rsync.rs:463-535 | there is only one canonical operation list for a token stream |
| `DeltaFormat.UnencodableStays` | crates/cterm-app/src/kitty_rsync.rs:511-525 | once a run is too long for its 32-bit field, no further token makes the operations encodable |
| `DeltaFormat.EncodedOnTheWire` | crates/cterm-app/src/kitty_rsync.rs:497-535 | each operation byte by byte: its tag, then its numbers and data at their widths, least byte first |
| `DeltaWriter.DeltaEmitter.Block` | crates/cterm-app/src/kitty_rsync.rs:472-482 | giving the emitter a block extends its tokens by that copy, with the run that it continues still pending |
| `DeltaWriter.DeltaEmitter.Data` | crates/cterm-app/src/kitty_rsync.rs:484-496 | giving the emitter literal bytes extends its tokens by them, cut at 64 KiB |
| `DeltaWriter.DeltaEmitter.FlushBlocks` | crates/cterm-app/src/kitty_rsync.rs:511-525 | the pending run is written as one operation, or refused exactly when it does not fit its field |
| `DeltaWriter.FindInRing` | crates/cterm-app/src/kitty_rsync.rs:154-161 | the rotated ring is looked up as the window it stands for |
| `DeltaWriter.Rotate` | crates/cterm-app/src/kitty_rsync.rs:182-185 | overwriting the oldest ring byte makes the ring hold the next window |
| `DeltaWriter.LookUp` | crates/cterm-app/src/kitty_rsync.rs:154-161 | the rolled checksum and the ring give the match that a fresh checksum of the sliced source gives |
| `DeltaWriter.SlideOne` | crates/cterm-app/src/kitty_rsync.rs:176-186 | one byte further, ring and rolled checksum stand for the next slice of the source, or the source has ended |
| `DeltaWriter.AfterMatch` | crates/cterm-app/src/kitty_rsync.rs:162-174 | a match sends the pending literal and the block, and the next window or the tail is taken up |
| `DeltaWriter.AfterMiss` | crates/cterm-app/src/kitty_rsync.rs:176-190 | a miss turns one byte into a literal, flushed at 64 KiB, and at the end the whole window is the tail |
| `DeltaWriter.Scan` | crates/cterm-app/src/kitty_rsync.rs:149-190 | the loop has decided exactly the tokens of the naive matcher when it ends |
| `DeltaWriter.WriteDelta` | crates/cterm-app/src/kitty_rsync.rs:136-198 | the streaming loop refines the naive matcher: it succeeds exactly when every operation is encodable, and then its bytes are the encoding of the canonical form of the naive tokens, and the digest of the source |
| `DeltaPatcher.RunBounds` | crates/cterm-app/src/kitty_rsync.rs:348-386 | an accepted block run starts and ends inside the base, short last block included |
| `DeltaPatcher.InBaseIff` | crates/cterm-app/src/kitty_rsync.rs:348-386 | a block run is accepted exactly when its last block begins inside the base and ends at a 64-bit offset, so a short last block is copied too |
| `DeltaPatcher.Patcher.CopyBlocks` | crates/cterm-app/src/kitty_rsync.rs:348-386 | a run is copied exactly when it lies in the base and fits the output limit, and extends the output by the bytes of those blocks |
| `DeltaPatcher.Patcher.WriteOutput` | crates/cterm-app/src/kitty_rsync.rs:388-398 | output grows by the data exactly when it stays within the limit, and the hash covers all of it |
| `DeltaPatcher.HeaderGrows` | crates/cterm-app/src/kitty_rsync.rs:302-308 | headers are gathered to exactly the size their first byte asks for, so the buffer never passes a header |
| `DeltaPatcher.Patcher.Consume` | crates/cterm-app/src/kitty_rsync.rs:288-346 | consuming a part of the delta moves the patcher as the byte-by-byte machine moves, error for error |
| `DeltaPatcher.Patcher.Write` | crates/cterm-app/src/kitty_rsync.rs:401-411 | a write first charges its whole length against the input limit, then consumes |
| `DeltaPatcher.Patcher.Finish` | crates/cterm-app/src/kitty_rsync.rs:271-286 | finish succeeds exactly within both limits, with no literal or header open and a checksum seen, and returns the output; the error says whether a limit or the end of the delta was at fault |
| `DeltaPatcher.SplitIndependence` | crates/cterm-app/src/kitty_rsync.rs:288-346 | state and error after a delta do not depend on how it was cut into writes |
| `DeltaMeaning.RunExplained` | crates/cterm-app/src/kitty_rsync.rs:288-346 | every accepted prefix is the encoding of applicable operations and an unfinished tail, and the output is what they mean |
| `DeltaMeaning.AcceptedIsDelta` | crates/cterm-app/src/kitty_rsync.rs:288-346 | input that reached its checksum is the encoding of an operation list, checksum last and only once, and the state is its meaning |
| `DeltaMeaning.DeltaAccepted` | crates/cterm-app/src/kitty_rsync.rs:288-346 | the encoding of applicable operations within the limit and its checksum is accepted, with their meaning as output |
| `DeltaMeaning.PatcherMeaning` | crates/cterm-app/src/kitty_rsync.rs:271-346 | the incremental patcher succeeds exactly on deltas, and its output is the meaning of any operation list the bytes encode |
| `DeltaRoundTrip.NaiveRebuilds` | crates/cterm-app/src/kitty_rsync.rs:136-198 | the naive tokens of a source against an honest signature copy and quote exactly the source |
| `DeltaRoundTrip.CanonRebuilds` | crates/cterm-app/src/kitty_rsync.rs:463-535 | merging and gathering does not change what tokens rebuild |
| `DeltaRoundTrip.DeltaLength` | crates/cterm-app/src/kitty_rsync.rs:598-606 | the delta of a source is at most twice its length and 23 bytes, so an honest one never trips the input limit of a patcher whose output limit admits the source |
| `DeltaRoundTrip.RunsEncodable` | crates/cterm-app/src/kitty_rsync.rs:511-525 | merged runs over a base of at most 2^32 blocks always fit their field |
| `DeltaRoundTrip.WrittenDeltaMeansSource` | crates/cterm-app/src/kitty_rsync.rs:136-198 | the delta written against an honest signature is a whole delta whose meaning is the source |
| `DeltaRoundTrip.DeltaRoundTrip` | crates/cterm-app/src/kitty_rsync.rs:136-411 | for every base, source, supported block size and split into writes, the patcher ends with exactly the source and a matching checksum |
| `DeltaRoundTrip.ApplyInPieces` | crates/cterm-app/src/kitty_rsync.rs:233-411 | a patcher fed in arbitrary pieces succeeds exactly on deltas within the input limit, with their meaning |
| `DeltaRoundTrip.Transfer` | crates/cterm-app/src/kitty_rsync.rs:92-411 | signature, delta and patch together return the source |
| `TransferManager.TtyTransferManager.HandleOne` | crates/cterm-app/src/kitty_file_transfer.rs:135-142 | one protocol command does to the manager what its session slot says, and returns those actions |
| `TransferManager.TtyTransferManager.Start` | crates/cterm-app/src/kitty_file_transfer.rs:237-294 | a start is refused for the reasons and in the order of the code, or adds a session that holds a new token |
| `TransferManager.TtyTransferManager.CancelSession` | crates/cterm-app/src/kitty_file_transfer.rs:296-311 | a cancel removes the session, aborting it first if it was approved |
| `TransferManager.TtyTransferManager.ContinueSession` | crates/cterm-app/src/kitty_file_transfer.rs:313-339 | other commands move a live session as its phase says |
| `TransferManager.TtyTransferManager.CollectReceivePath` | crates/cterm-app/src/kitty_file_transfer.rs:341-402 | a path request is collected, completes the request, or ends the session |
| `TransferManager.TtyTransferManager.AuthorizedCommand` | crates/cterm-app/src/kitty_file_transfer.rs:404-456 | an approved session hands over commands of its direction and shape, closes on its closing one, and is dropped with an abort on any other |
| `TransferManager.TtyTransferManager.ApproveToken` | crates/cterm-app/src/kitty_file_transfer.rs:145-178 | approval reaches a session that waits with the token, if one does, and releases its collected requests and the end of the listing |
| `TransferManager.TtyTransferManager.RejectToken` | crates/cterm-app/src/kitty_file_transfer.rs:186-191 | a rejection by token reaches a session that waits with it, if one does |
| `TransferManager.TtyTransferManager.Deny` | crates/cterm-app/src/kitty_file_transfer.rs:181-183 | a denial is a rejection with the refusal status |
| `TransferManager.TtyTransferManager.RejectById` | crates/cterm-app/src/kitty_file_transfer.rs:196-210 | a rejection by id removes the session in any phase, aborting it first if it was approved |
| `TransferManager.TtyTransferManager.RejectEverySession` | crates/cterm-app/src/kitty_file_transfer.rs:213-219 | every session is rejected once, in the order of the map |
| `TransferManager.TtyTransferManager.AllocateRequestId` | crates/cterm-app/src/kitty_file_transfer.rs:465-469 | tokens count up and skip zero when they wrap |
| `TransferManager.TtyTransferManager.SessionIdForRequest` | crates/cterm-app/src/kitty_file_transfer.rs:458-463 | a waiting session with the token is found exactly when there is one |
| `ConsentSafety.RunOk` | crates/cterm-app/src/kitty_file_transfer.rs:237-456 | in every reachable manager at most 16 sessions live, collecting ones have fewer requests than expected, waiting ones exactly as many, with distinct file ids, and at most 256 are expected |
| `ConsentSafety.NextOrigin` | crates/cterm-app/src/kitty_file_transfer.rs:135-456 | a session after a call is unchanged, newly started, one request further, or approved by its own token |
| `ConsentSafety.ExecuteWasConsented` | crates/cterm-app/src/kitty_file_transfer.rs:135-456 | every command carried out and every listing sent was prompted for with this id, direction and these paths, then approved with the token of that prompt, by one uninterrupted session |
| `ConsentSafety.NothingAfterTheEnd` | crates/cterm-app/src/kitty_file_transfer.rs:135-456 | once a session is gone nothing is carried out or listed for its id until a new prompt and a new approval |
| `ConsentSafety.AbnormalEndAborts` | crates/cterm-app/src/kitty_file_transfer.rs:196-210 | an approved session ends with its closing command, or its abort precedes every answer to its peer |
| `ConsentTokens.RunTokens` | crates/cterm-app/src/kitty_file_transfer.rs:465-469 | before 2^64-1 starts, live tokens are below the counter and no two sessions share one |
| `ConsentTokens.StaleTokenIsInert` | crates/cterm-app/src/kitty_file_transfer.rs:145-191 | approving or rejecting with the token of a session that is gone does nothing |
| `ConsentTokens.PromptTokensDiffer` | crates/cterm-app/src/kitty_file_transfer.rs:465-469 | no two prompts of a run carry the same token |
| `Approvals.RequestsWereGiven` | crates/cterm-app/src/kitty_file_transfer.rs:237-402 | a session that is not yet approved holds just the file commands that came for it since the call that started it, in order |
| `Approvals.ApprovalReleasesRequests` | crates/cterm-app/src/kitty_file_transfer.rs:145-178 | approving a waiting receive session returns the spoken OK, then one command for each path request it was given since its start, in order and as many as announced, then once the end of the listing; the prompt had shown just their names; a send session gets the OK only |
| `ApprovedListings.ApprovedPathsAreListed` | crates/cterm-app/src/kitty_file_transfer_fs.rs:92-123 | carried out in order by an executor that was given everything so far, each released request is listed while the listing is open, and the listing is completed once, after the last of them |
| `ApprovedListings.ApprovedPathsAreListings` | crates/cterm-app/src/kitty_file_transfer_fs.rs:92-123 | the session then has listed just the trees that the approved paths were found to be and that were within its limits, in order, and nothing else |
| `ApprovedListings.ExecutedFetch` | crates/cterm-app/src/kitty_file_transfer_receive.rs:62-93 | once the listing is complete, the same kind of command is a request, answered by the next entry of its name or refused |
| `SessionCommands.PathIff` | crates/cterm-app/src/kitty_file_transfer.rs:483-491 | a protocol path has 1 to 4096 bytes, no NUL, and between its slashes only names of at most 255 bytes that are neither one dot nor two |
| `SessionCommands.StartIff` | crates/cterm-app/src/kitty_file_transfer.rs:237-294 | a start succeeds exactly with a free id, fewer than 16 sessions and, for receiving, support and a count of at most 256, and prompts at once unless paths are to come; else nothing changes and a reason that holds is told |
| `SessionCommands.LiveIff` | crates/cterm-app/src/kitty_file_transfer.rs:296-456 | a command is collected or handed over exactly when the session is in the phase for it and the command is complete, and any other ends its session, aborts it if it was approved and tells why; a cancel does so in any phase |
| `SessionCommands.RejectionTells` | crates/cterm-app/src/kitty_file_transfer.rs:196-210 | a rejection ends its session in any phase, aborts it first if it was approved, and tells the status unless the peer asked for quiet |
| `SessionCommands.RejectAllEndsAll` | crates/cterm-app/src/kitty_file_transfer.rs:213-219 | rejecting all leaves no session, aborts each approved one, and tells each peer that listens |
| `SendFilesystem.TtyTransferSendFilesystem.StageFile` | crates/cterm-app/src/kitty_file_transfer_fs.rs:207-427 | staging creates the session, refuses in the order of the code, and adds the entry with its reservation and writer; every session keeps its budget |
| `SendFilesystem.TtyTransferSendFilesystem.WriteLinkData` | crates/cterm-app/src/kitty_file_transfer_fs.rs:454-504 | link data is charged, bounded by path, file and session limits, and must parse when it is complete |
| `SendFilesystem.TtyTransferSendFilesystem.WriteStagedFile` | crates/cterm-app/src/kitty_file_transfer_fs.rs:505-541 | the writer is tightened, written through, and charged, also for exactly what a failed write counted as written |
| `SendFilesystem.TtyTransferSendFilesystem.AfterWrite` | crates/cterm-app/src/kitty_file_transfer_fs.rs:542-602 | the reservation grows by what was written beyond it or the file is rejected, and a last write closes, measures and syncs the file |
| `SendFilesystem.TtyTransferSendFilesystem.WriteFileData` | crates/cterm-app/src/kitty_file_transfer_fs.rs:429-603 | data for unknown and rejected entries is ignored, for directories refused, and otherwise changes only its own entry and the counters |
| `SendFilesystem.TtyTransferSendFilesystem.PlannedUnwrittenBytes` | crates/cterm-app/src/kitty_file_transfer_fs.rs:794-801 | the sum over live files, in whatever order, is reserved bytes less written ones |
| `SendBudget.PlannedIsExact` | crates/cterm-app/src/kitty_file_transfer_fs.rs:794-801 | that subtraction never underflows |
| `SendBudget.StageOk` | crates/cterm-app/src/kitty_file_transfer_fs.rs:207-427 | staging keeps the budget: reserved is the sum of live reservations and within the session limit, live bytes are within what was consumed, ids are one entry or rejected |
| `SendBudget.DataOk` | crates/cterm-app/src/kitty_file_transfer_fs.rs:429-603 | every data command keeps the budget, on every branch |
| `SendRuns.BudgetOverRuns` | crates/cterm-app/src/kitty_file_transfer_fs.rs:207-603 | after any commands: the budget, written within reserved for each file, live file and link bytes within both consumed bytes and the session limit, entries within the file limit |
| `SendRuns.PlainDataIff` | crates/cterm-app/src/kitty_file_transfer_fs.rs:523-602 | a plain write on a working disk is taken whole exactly when it fits the stated room, and a last one then completes the file exactly when size and sync are right; otherwise its file is rejected for its size |
| `StagedDeltas.FeedIff` | crates/cterm-app/src/kitty_rsync.rs:288-398 | delta bytes reach a limited staging file whole exactly when the patcher takes them and their output fits |
| `SendRuns.DeltaDataIff` | crates/cterm-app/src/kitty_file_transfer_fs.rs:523-566 | delta bytes on a working disk are taken exactly within the input and output limits of the moment, the limit the staging file was created with, and the reservations of the session |
| `SendWitnesses.CreationLimitIsKept` | crates/cterm-app/src/kitty_file_transfer_fs.rs:359-381 | a delta staged while declared bytes filled the session refuses five bytes after they are gone, though its present limit is ten |
| `SendRuns.ReservationsCovered` | crates/cterm-app/src/kitty_file_transfer_fs.rs:274-295 | with nothing rejected and no link data, what every file still reserves can still be consumed |
| `SendRuns.AdmissionIsAPromise` | crates/cterm-app/src/kitty_file_transfer_fs.rs:274-295 | in such a run a plain file admitted with a declared size takes all its bytes, whatever undeclared files wrote in between, is never refused for its size, and completes when the size is reached and the sync works |
| `SendAdmissions.StageIff` | crates/cterm-app/src/kitty_file_transfer_fs.rs:207-427 | an entry is staged exactly when its id is new, there is room for one more, only a regular file comes as a delta or compressed, what it declares is within the file limit and, with all that was consumed and all that live files may still write of what they reserved, within the session limit, and its path can be staged; what is added, answered and spent in either case |
| `SendAdmissions.LinkDataIff` | crates/cterm-app/src/kitty_file_transfer_fs.rs:454-504 | link data is taken, behind what came before, exactly when the link is open, the joined data is within path, file and session limits, and on completion says what the link leads to; else the link is given up |
| `SendAdmissions.UnknownDataIsIgnored` | crates/cterm-app/src/kitty_file_transfer_fs.rs:429-453 | data for an id that is unknown or was given up changes nothing and is not answered; a directory refuses it |
| `SendAdmissions.PlainFailureCharges` | crates/cterm-app/src/kitty_file_transfer_fs.rs:523-541 | plain data that does not fit is charged for just what the file, the session and the disk let through of it, and the error says which of them ended it |
| `SendAdmissions.DeltaClosesIff` | crates/cterm-app/src/kitty_file_transfer_fs.rs:566-602 | the last data of a delta completes its file exactly when the patcher takes it, has then seen the checksum with nothing left open, and has put out the declared size; the file is that output |
| `SendRuns.ConsumedStepIff` | crates/cterm-app/src/kitty_file_transfer_fs.rs:429-603 | no command gives consumed bytes back, and one keeps them within the session limit exactly when it is not data for an incomplete link that the session has no room for |
| `SendRuns.ConsumedWithinIff` | crates/cterm-app/src/kitty_file_transfer_fs.rs:207-603 | over a run, consumed bytes are within the session limit exactly when no command was such data |
| `SendWitnesses.ConsumedMayPassTheLimit` | crates/cterm-app/src/kitty_file_transfer_fs.rs:475-478 | a run in which a refused chunk of link data, charged in full, takes consumed bytes past the limit |
| `SendWitnesses.LinkDataBreaksThePromise` | crates/cterm-app/src/kitty_file_transfer_fs.rs:465-504 | accepted link data alone can take the room of an admitted file |
| `SendWitnesses.RejectionBreaksThePromise` | crates/cterm-app/src/kitty_file_transfer_fs.rs:534-541 | a rejected overrun alone can take the room of an admitted file |
| `SendContents.RunLimit` | crates/cterm-app/src/kitty_rsync.rs:388-398 | an accepted delta never outgrows the patcher limit, whichever one it ran under, and a higher limit gives the same result |
| `SendContents.FileHoldsItsData` | crates/cterm-app/src/kitty_file_transfer_fs.rs:429-603 | a live file was staged by one regular file command, is to go where that command's path was resolved to and to have the size that it declared, and holds the concatenation of its data commands since, or the output of the patcher on it; it is complete exactly when the last of them completed it, synced, with its stream at an end |
| `SendContents.CompletedDelta` | crates/cterm-app/src/kitty_file_transfer_fs.rs:569-576 | a file completed from a delta holds the meaning of the operations that were sent |
| `SendFilesystem.TtyTransferSendFilesystem.PublishFiles` | crates/cterm-app/src/kitty_file_transfer_fs.rs:688-725 | files are published in the order of their ids until one fails |
| `SendFilesystem.TtyTransferSendFilesystem.PublishLinks` | crates/cterm-app/src/kitty_file_transfer_fs.rs:660-739 | links follow once all files are published, hard links before symbolic ones, until one fails |
| `SendFilesystem.TtyTransferSendFilesystem.CommitSession` | crates/cterm-app/src/kitty_file_transfer_fs.rs:605-762 | Finish removes the session; refused for an incomplete entry, an unresolved link or a link that cannot be staged it changes no destination, and otherwise the disk is the old one after the publications done, in order |
| `SendFilesystem.TtyTransferSendFilesystem.Abort` | crates/cterm-app/src/kitty_file_transfer_fs.rs:190-194 | an abort forgets that session and no other |
| `SendPublication.PublishedOrKept` | crates/cterm-app/src/kitty_file_transfer_fs.rs:688-739 | however far a Finish got, every destination holds what it held, or the whole of what one entry publishes there |
| `SendPublication.PublishedLast` | crates/cterm-app/src/kitty_file_transfer_fs.rs:688-739 | after a whole Finish each entry that no later one replaces is in its place |
| `SendPublication.DistinctlyPublished` | crates/cterm-app/src/kitty_file_transfer_fs.rs:605-762 | with distinct destinations every file and link is in its place and nothing else has changed |
| `SendPublication.PrevailingStays` | crates/cterm-app/src/kitty_file_transfer_fs.rs:688-739 | of several entries for one place a symbolic link stays before a hard link, a link before a file, and of files the one with the greatest id |
| `SendPublication.LessIff` | crates/cterm-app/src/kitty_file_transfer_fs.rs:688-693 | ids are ordered by their first different byte, a prefix before what extends it |
| `SendLinks.LinkHoldsItsData` | crates/cterm-app/src/kitty_file_transfer_fs.rs:301-358 | a live link goes where its command's path was resolved to, is of the kind its command asked for, and holds the data of its data commands, joined in the order they came; only the last of them completes it |
| `SendLinks.DirectoryWasStaged` | crates/cterm-app/src/kitty_file_transfer_fs.rs:301-336 | a directory is where its command's path was resolved to |
| `SendLinks.ResolvedIff` | crates/cterm-app/src/kitty_file_transfer_fs.rs:1017-1110 | what a link leads to, by the first bytes of its data: path: the path named; fid: where the entry named is to be, seen from the link; fid_abs: that place itself; and for a hard link, with fid: or fid_abs: only, the file named |
| `SendFinish.FinishPublishesTheData` | crates/cterm-app/src/kitty_file_transfer_fs.rs:429-762 | a Finish that goes through leaves, where the path of the file's own command was resolved to, exactly what its data commands carried, of the size that command declared, and its last data command had completed it; at each hard link that stays it leaves the content of a file of the session |
| `SendFinish.FinishPublishesTheLink` | crates/cterm-app/src/kitty_file_transfer_fs.rs:605-762 | it leaves each link that stays where its command's path was resolved to: a symbolic link to what its joined data says, or what the data commands of the file carried that its joined data names |
| `SendFinish.FinishIff` | crates/cterm-app/src/kitty_file_transfer_fs.rs:605-762 | it goes through exactly when every entry is complete, every link leads somewhere and can be prepared, and nothing fails to be published |
| `SendDeliveries.SessionIsItsRun` | crates/cterm-app/src/kitty_file_transfer_fs.rs:196-205 | whatever other sessions do in between, a session is what its own commands make of it in order: a File stages, a Data adds, an EndData adds and completes |
| `SendDeliveries.SentFileIsPublished` | crates/cterm-app/src/kitty_file_transfer_fs.rs:196-762 | from protocol commands to the disk: after a successful Finish the place that a file command was resolved to holds exactly what the data commands for it carried |
| `ReceiveTree.PreorderRooted` | crates/cterm-app/src/kitty_file_transfer_receive.rs:756-848 | collected entries are in preorder, ids count up, and every parent id names an earlier directory |
| `ReceiveTree.ReceiveTreeCollector.ReserveData` | crates/cterm-app/src/kitty_file_transfer_receive.rs:850-860 | an entry is charged exactly when it fits the file and the session limit |
| `ReceiveTree.ReceiveTreeCollector.CountChildren` | crates/cterm-app/src/kitty_file_transfer_receive.rs:829-838 | the early cut refuses only directories whose children alone exceed the entry limit |
| `ReceiveTree.ReceiveTreeCollector.Collect` | crates/cterm-app/src/kitty_file_transfer_receive.rs:756-848 | a tree is collected as its preorder when it fits, and refused only for a limit that it does exceed |
| `ReceiveTree.CollectReceiveTree` | crates/cterm-app/src/kitty_file_transfer_receive.rs:719-743 | a finite tree is accepted exactly when its entries, each file and its total fit |
| `ReceiveSessions.WithPathOk` | crates/cterm-app/src/kitty_file_transfer_receive.rs:308-316 | listing a tree that fits keeps the session invariant: counters within limits, ids distinct over all paths, parents earlier directories |
| `ReceiveSessions.ListedOk` | crates/cterm-app/src/kitty_file_transfer_receive.rs:95-228 | completing the listing queues one source for each listed entry |
| `ReceiveSessions.LinksNameEarlierFiles` | crates/cterm-app/src/kitty_file_transfer_receive.rs:129-150 | a link entry names an earlier entry for the same file, which is announced as a regular file |
| `ReceiveSources.EntryIsReached` | crates/cterm-app/src/kitty_file_transfer_receive.rs:756-848 | every entry stands for a node of the approved tree: its path is the way to the node, and its kind, size, identity and target are the node's |
| `ReceiveSources.ReachedIsShown` | crates/cterm-app/src/kitty_file_transfer_receive.rs:756-848 | every node of the tree has such an entry |
| `ReceiveSources.ParentIsItsDirectory` | crates/cterm-app/src/kitty_file_transfer_receive.rs:756-848 | the parent id of every entry but the first is that of the very directory it is a child of, and its path is that directory's with the child's name |
| `ReceiveSources.QueuedSourceFits` | crates/cterm-app/src/kitty_file_transfer_receive.rs:120-190 | the queue of a name has one source for each of its entries, in order: for the first name of a file one with just the size and identity that was listed, for a later name a link, for a directory a directory, for a symbolic link its own target |
| `ReceiveSources.AnnouncementTells` | crates/cterm-app/src/kitty_file_transfer_receive.rs:110-210 | each pending item is announced at its own place: an error as it is, an entry by its ids, path and parent, the first name of a file as a regular file, a later name as a link to the first, a symbolic link with the id of the entry it resolves to if that was listed |
| `ReceiveFetches.ListingIff` | crates/cterm-app/src/kitty_file_transfer_receive.rs:264-316 | a path is added whole, behind what was listed, exactly when the number of entries, each entry's bytes and the bytes of all entries are within the limits, and adds nothing otherwise |
| `ReceiveFetches.RefusalIsNoted` | crates/cterm-app/src/kitty_file_transfer_receive.rs:274-307 | a path that is refused leaves one note of a limit that it exceeds, unless the peer asked for quiet |
| `ReceiveFetches.ListedInTurnIs` | crates/cterm-app/src/kitty_file_transfer_receive.rs:234-318 | over any listings a session holds just the trees that were within its limits, in order |
| `ReceiveSessions.HandedOutOk` | crates/cterm-app/src/kitty_file_transfer_receive.rs:369-383 | handing out a source keeps used ids and queued sources adding up to what was listed, and no queue empty |
| `ReceiveSessions.BufferedOk` | crates/cterm-app/src/kitty_file_transfer_receive.rs:532-557 | buffering signature data that fits keeps the running total the sum of all pending signatures, at most 16 MiB each and 64 MiB together |
| `ReceiveSessions.ReleasedOk` | crates/cterm-app/src/kitty_file_transfer_receive.rs:539-568 | releasing a signature frees exactly its bytes; the saturating subtraction is exact |
| `ReceiveFilesystem.TtyTransferReceiveFilesystem.ListPath` | crates/cterm-app/src/kitty_file_transfer_receive.rs:234-318 | an approved path is listed whole, or leaves every counter as it was and at most an error to announce |
| `ReceiveFilesystem.TtyTransferReceiveFilesystem.CompleteListing` | crates/cterm-app/src/kitty_file_transfer_receive.rs:95-228 | all pending items are announced in order and their sources queued, or the sink closed and the session is gone |
| `ReceiveFilesystem.TtyTransferReceiveFilesystem.TransmitSource` | crates/cterm-app/src/kitty_file_transfer_receive.rs:320-496 | the next source of an approved name is used up by a fresh request id and answered by its kind; a regular file that is unchanged is sent whole |
| `ReceiveFilesystem.TtyTransferReceiveFilesystem.ReceiveSignature` | crates/cterm-app/src/kitty_file_transfer_receive.rs:498-606 | signature data is buffered within both bounds or released; a complete one is parsed and answered by the delta of the listed bytes |
| `ReceiveFilesystem.TtyTransferReceiveFilesystem.HandleAuthorized` | crates/cterm-app/src/kitty_file_transfer_receive.rs:62-93 | file commands list until the listing is complete and transmit from then on; the closing command removes the session |
| `ReceiveFrames.FramesCarry` | crates/cterm-app/src/kitty_file_transfer_receive.rs:1294-1366 | the frames of a stream concatenate to it, all but the last are full, and the one last frame is empty only for an empty stream |
| `ReceiveFrames.ProtocolChunkWriter.Write` | crates/cterm-app/src/kitty_file_transfer_receive.rs:1349-1361 | what was emitted and what is pending depend only on all data given, not on how it was cut into writes; where the sink closes, the first frames of whatever was to come are out |
| `ReceiveFrames.ProtocolChunkWriter.Finish` | crates/cterm-app/src/kitty_file_transfer_receive.rs:1340-1342 | after finish the emitted frames are exactly the frames of all data given |
| `ReceiveFrames.StreamFile` | crates/cterm-app/src/kitty_file_transfer_receive.rs:1192-1243 | the listed size of a file is streamed in canonical frames; a truncated file or a closed sink leaves their beginning |
| `ReceiveFrames.StreamDelta` | crates/cterm-app/src/kitty_file_transfer_receive.rs:1245-1276 | the delta of the listed bytes is streamed in canonical frames; a truncated file or a closed sink leaves their beginning |
| `ReceiveRuns.CallsAreSteps` | crates/cterm-app/src/kitty_file_transfer_receive.rs:320-606 | the executor calls move a session as the steps of a run do |
| `ReceiveRuns.ReceiveConserved` | crates/cterm-app/src/kitty_file_transfer_receive.rs:320-606 | whatever is asked for, in any order, ids used and sources queued add up to what was listed, and the signature bounds hold |
| `ReceiveRuns.OneShotSources` | crates/cterm-app/src/kitty_file_transfer_receive.rs:358-383 | for every name, the sources handed out and those still queued are together exactly what was listed under it, in listing order |
| `ReceiveRuns.IdsUsedOnce` | crates/cterm-app/src/kitty_file_transfer_receive.rs:347-383 | no request id gets two sources |
| `ReceiveFetches.UsedIdIsRefused` | crates/cterm-app/src/kitty_file_transfer_receive.rs:347-357 | a request is refused for its id exactly when that id has already got a source |
| `ReceiveFetches.FetchFits` | crates/cterm-app/src/kitty_file_transfer_receive.rs:320-496 | whatever was asked for before, the next request for a name is answered by what the next entry of that name stands for, and one beyond the last is refused |
| `ReceiveFetches.FetchDeliversTheNode` | crates/cterm-app/src/kitty_file_transfer_receive.rs:234-496 | from approved path to peer: what a request for a name gets stands for a node that one of the approved paths was found to have under just that name, and a regular file is answered with that node's own content |
| `ReceiveFetches.SignatureTakenIff` | crates/cterm-app/src/kitty_file_transfer_receive.rs:532-557 | signature data is taken exactly when its signature stays within 16 MiB and all pending ones together within 64 MiB, and otherwise that request alone is given up |
| `ReceiveRuns.SignatureAccumulates` | crates/cterm-app/src/kitty_file_transfer_receive.rs:532-557 | however requests for other files interleave, a pending signature is the concatenation of the data sent for it |
| `ReceiveRuns.RsyncDeliversTheFile` | crates/cterm-app/src/kitty_file_transfer_receive.rs:562-606 | a peer that sent the signature of its base and patches the streamed frames one by one ends with the file that was listed |
| `ReceiveFetches.RsyncDeliversTheEntry` | crates/cterm-app/src/kitty_file_transfer_receive.rs:320-606 | from listing to patched base: a file asked for under a name, its signature sent in any pieces among any other requests, and the streamed frames patched one by one, end in the content of the file with the identity that the entry was listed with |
| `TransferFilesystem.TtyTransferFilesystem.ExecuteSend` | crates/cterm-app/src/kitty_file_transfer_fs.rs:196-205 | send commands are staged, written or finished by their action |
| `TransferFilesystem.TtyTransferFilesystem.HandleExecutable` | crates/cterm-app/src/kitty_file_transfer_fs.rs:92-123 | an action changes the tables of its own direction only, as that direction says; an abort reaches both |
| `TransferFilesystem.TtyTransferFilesystem.Deliver` | crates/cterm-app/src/kitty_file_transfer_fs.rs:92-123 | actions carried out in order leave sessions only where one was touched and not removed |
| `Coupling.StepCoupled` | crates/cterm-app/src/kitty_file_transfer_fs.rs:92-123 | one manager call with all its actions delivered keeps every executor session an approved session of its direction |
| `Coupling.RunCoupled` | crates/cterm-app/src/kitty_file_transfer_fs.rs:92-140 | over every run: the two id sets are disjoint, name approved sessions only, and together never outnumber the at most 16 sessions of the manager |
| `Coupling.RunIsExecutable` | crates/cterm-app/src/kitty_file_transfer_fs.rs:207-215 | the file ids and names that the executor expects are always there |
| `DndMimes.AddedUpIsJoined` | crates/cterm-app/src/kitty_dnd.rs:604-617 | the size that validation adds up is the length of the joined list |
| `DndMimes.ValidationIsExact` | crates/cterm-app/src/kitty_dnd.rs:604-629 | a list is accepted exactly when its types are printable ASCII, at most 4096, and at most one MiB joined |
| `DndMimes.ParseUndoesJoin` | crates/cterm-app/src/kitty_dnd.rs:593-633 | parsing undoes joining on every valid list |
| `DndMimes.ParsedIsValid` | crates/cterm-app/src/kitty_dnd.rs:593-602 | whatever parses is a valid list, and joining and parsing it again changes nothing |
| `DndMimes.WordsAre` | crates/cterm-app/src/kitty_dnd.rs:593-602 | a payload is read as the types between its spaces, however many spaces there are |
| `DndMimes.ParsedIff` | crates/cterm-app/src/kitty_dnd.rs:593-602 | it is read at all exactly when these are a valid list |
| `DndFrames.FramesAreOneMessage` | crates/cterm-app/src/kitty_dnd.rs:518-559 | the frames of a payload are one message that carries it: headed once, ended once, full chunks, and never no frame |
| `DndDestinations.DndDestination.Handle` | crates/cterm-app/src/kitty_dnd.rs:162-182 | commands reach the operation of their type; unknown ones change nothing |
| `DndDestinations.DndDestination.Register` | crates/cterm-app/src/kitty_dnd.rs:302-355 | one chunk of a registration moves buffer, flags and registration as specified, on every branch |
| `DndDestinations.DndDestination.AcceptStatus` | crates/cterm-app/src/kitty_dnd.rs:357-394 | one chunk of an acceptance, which only counts while something hovers |
| `DndDestinations.DndDestination.Move` | crates/cterm-app/src/kitty_dnd.rs:185-220 | a drag report refuses bad lists, takes back acceptance when the offer changed, and sends the types only then |
| `DndDestinations.DndDestination.Leave` | crates/cterm-app/src/kitty_dnd.rs:223-245 | a leave clears the drag unless a drop waits to be finished |
| `DndDestinations.DndDestination.ReleaseDrop` | crates/cterm-app/src/kitty_dnd.rs:248-300 | a drop is retained exactly when nothing speaks against it, and otherwise everything of the drag is cleared |
| `DndDestinations.DndDestination.Serve` | crates/cterm-app/src/kitty_dnd.rs:396-435 | a request is answered from the retained data, or ends the drag |
| `DndDestinations.DndDestination.Reset` | crates/cterm-app/src/kitty_dnd.rs:456-464 | a stop leaves the initial state |
| `DndRuns.RunOk` | crates/cterm-app/src/kitty_dnd.rs:121-464 | in every reachable state buffers, lists and retained data are within their limits, and a disabled destination has nothing registered |
| `DndConsent.AcceptedWasGranted` | crates/cterm-app/src/kitty_dnd.rs:149-394 | an accepted operation was asked for by the latest acceptance, which began over the very offer that still hovers and permits it; its own list is in force once it is whole, an older one until then |
| `DndServing.AcceptedNumber` | crates/cterm-app/src/kitty_dnd.rs:29-36 | whatever operation is accepted, the number in the acceptance was 1 for a copy or 2 for a move, the offer allows it, and an offered type is accepted |
| `DndConsent.NoConsentCarriesOver` | crates/cterm-app/src/kitty_dnd.rs:185-394 | after a change of the offer no operation is accepted until a fresh acceptance, even mid-chunk; no list is either, if no acceptance was being collected at the change |
| `DndConsent.OlderChunksCountIff` | crates/cterm-app/src/kitty_dnd.rs:185-394 | what follows a change of the offer can put a list in force without a fresh acceptance exactly when chunks of one were being collected at the change |
| `DndConsent.DiscardedLeavesNothing` | crates/cterm-app/src/kitty_dnd.rs:366-379 | an acceptance that is being discarded when the offer changes is not idle, and still leaves nothing that could list types for the new offer |
| `DndOlderChunks.OlderListIsHonoured` | crates/cterm-app/src/kitty_dnd.rs:196-202 | a run in which the end of an acceptance begun for one offer lists types for the next, and a drop is retained on them while the new acceptance is unfinished |
| `DndConsent.MimesWereGiven` | crates/cterm-app/src/kitty_dnd.rs:185-394 | a list of accepted types is what the joined chunks of one acceptance ask for; it belongs to the offer that hovers from its first chunk on exactly when no event changed the offer while it was collected |
| `DndConsent.RetainedWasConsented` | crates/cterm-app/src/kitty_dnd.rs:248-300 | retained data was released under the latest acceptance, begun over the offer that hovered, with an operation that offer and drop both permit, an accepted type, and at most 16 MiB; the types are those of that acceptance if it was whole at the release, and those in force when it began if not |
| `DndConsent.FinishedDropsStayFinished` | crates/cterm-app/src/kitty_dnd.rs:396-454 | after a step that reports a finished drop, data is retained again only for a new acceptance and a new drop |
| `DndServing.RetainedIff` | crates/cterm-app/src/kitty_dnd.rs:248-300 | data is retained exactly when drops are enabled, the application asks for an operation that offer and drop allow, types are a valid list of which one is accepted, and there are at most 16 MiB; it is announced by one message that reads as the types of its items in order |
| `DndServing.RequestGetsItsItem` | crates/cterm-app/src/kitty_dnd.rs:396-435 | over every run, a request for item k is answered with the encoded bytes of item k of the release whose data is retained, as one message, and one empty message after it; nothing changes, and the type announced at position k was that item's |
| `DndServing.OtherRequestsEnd` | crates/cterm-app/src/kitty_dnd.rs:396-470 | any other request gets no data: naming nothing it finishes the drop with the operation of its number, naming what is not there it is told so and the drop ends with none, and with nothing retained it is told that |
| `DndServing.MoveIff` | crates/cterm-app/src/kitty_dnd.rs:185-220 | a drag is reported, in one message, exactly when drops are enabled and its types are a valid list; a new offer brings the list that reads as its types and takes consent back |
| `DndServing.LeaveIsReported` | crates/cterm-app/src/kitty_dnd.rs:223-245 | a leave ends a drag that has not been dropped and is reported from outside the window; else it does nothing |
| `DndServing.StopForgets` | crates/cterm-app/src/kitty_dnd.rs:162-182 | a stop leaves the destination as it was before any event |
| `DndServing.QuietCommands` | crates/cterm-app/src/kitty_dnd.rs:162-182 | a query is answered to the client that asks and changes nothing, an acceptance is never answered and leaves offer, data and registration alone, and commands that are not for a destination do nothing |
| `DndChunks.ChunkedRegistration` | crates/cterm-app/src/kitty_dnd.rs:302-355 | from idle, a registration in any chunks enables drops exactly when the joined payload is at most one MiB and a valid list, registers that list and announces it once |
| `DndChunks.RegistersTheList` | crates/cterm-app/src/kitty_dnd.rs:302-355 | an application that joins a valid list and sends it in chunks has that list registered |
| `DndChunks.ChunkedAcceptance` | crates/cterm-app/src/kitty_dnd.rs:357-394 | an acceptance in any chunks says what the joined payload says, with the operation of its first chunk |

## Left out

- The zlib decoder and its framing: what it makes of each write is a parameter (`WriteIo.inflated`), so the theorems on zlib files speak of the decoded data.
- The hash functions themselves: XXH3-64 and XXH3-128 are uninterpreted.
- The choice of a block size by a floating-point square root: every size from 64 bytes to 1 MiB is covered.
- I/O errors of readers and writers inside the delta codec, and a base file that changes while it is read.
- 64-bit overflow of the byte counters of the emitter and the patcher, which would need 2^64 bytes of data; the counters are unbounded here.
- Guards that cannot be reached: the base-offset check of the block copy after its range check, the missing operation byte, and the empty source queue (`ReceiveSessions.NoQueueEmpty` shows that there is none).
- SendFilesystem.TtyTransferSendFilesystem.WriteStagedFile: where the zlib decoder fails, what it had written by then is bounded by the limit and the disk only.
- SendFilesystem.TtyTransferSendFilesystem.PublishLinks: the order among hard links, and among symbolic ones, is left open, as the code leaves it to its map.
- SendFilesystem.TtyTransferSendFilesystem.CommitSession: the disk is a map from destination to content; permissions, times, ownership, directories made on the way and the shared identity of hard links are not modelled.
- Path resolution (home, parents) and relative paths: parameters. The name a listed path has in the protocol is its path; drive letters and separators of Windows are not modelled.
- ReceiveTree.CollectReceiveTree: opening, type and path errors of the tree walk, and its order of errors among several limits, are not modelled; the tree is given whole.
- ReceiveFrames.StreamDelta: the delta reaches the frame writer in one write instead of one per operation; by the theorem on frames this changes no frame.
- The status that follows a stream which failed to read its file or to write its delta.
- Compression of received streams, and the times, sizes and permissions in listings.
- ReceiveFilesystem.TtyTransferReceiveFilesystem.ListPath: ids of entries are numbers, which the code writes in decimal.
- Encoding and parsing of OSC 5113 and OSC 72 commands, and the encoding of replies with their quiet filter in the executors; the quiet filter is modelled in the manager and for listing errors.
- Status texts: each is a constructor named after its text.
- DndFrames.FramesAreOneMessage: frames are records; their escape bytes and decimal numbers are not modelled, and neither is Base64.
- DndMimes.ParsedIsValid: which error a bad payload gives is not modelled, because both callers only ask whether there was one.
- What a front end does with a sink that closes, and any action that it does not deliver.
- `has_session`, configuration, logging, the user interface and everything else in the repository.
