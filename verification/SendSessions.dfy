/** One approved send session: staged entries, and the counters that bound them. */
module SendSessions {
  import opened Bytes
  import opened ByteStreams
  import opened Signatures
  import opened DeltaPatcher
  import opened StagedDeltas
  import opened TransferCommands
  import opened MapSums

  datatype Limits = Limits(maxFiles: nat, maxFileBytes: u64, maxSessionBytes: u64)
  {
    predicate Valid() {
      0 < maxFiles && 0 < maxFileBytes <= maxSessionBytes
    }
  }

  /** The staging file and the decoder in front of it; the patcher's own sink keeps its first limit. */
  datatype StagedWriter =
    | Plain(content: seq<byte>, limit: u64)
    | Rsync(config: Config, state: State, received: nat, sinkLimit: u64)
  {
    function Written(): seq<byte> {
      if Plain? then content else state.output
    }

    function SetLimit(newLimit: u64): (w: StagedWriter)
      ensures w.Written() == Written()
    {
      if Plain? then this.(limit := newLimit) else this.(config := config.(limit := newLimit))
    }

    predicate Valid() {
      (Rsync? ==> 0 < config.blockSize) && |Written()| < U64_LIMIT
    }
  }

  datatype StagedFile = StagedFile(
    destination: Text,
    expectedSize: Option<u64>,
    writer: Option<StagedWriter>,
    temporary: Option<seq<byte>>,
    bytesWritten: nat,
    reservation: nat,
    zlib: bool)
  {
    function Content(): seq<byte> {
      if writer.Some? then writer.value.Written() else if temporary.Some? then temporary.value else []
    }
  }

  datatype StagedLink = StagedLink(fileType: FileTransferType, destination: Text, data: seq<byte>, complete: bool)

  datatype SendSession = SendSession(
    files: map<Text, StagedFile>,
    directories: map<Text, Text>,
    links: map<Text, StagedLink>,
    rejected: set<Text>,
    reservedBytes: nat,
    consumedBytes: nat)
  {
    predicate ContainsEntry(id: Text) {
      id in files || id in directories || id in links
    }

    function EntryCount(): nat {
      |files| + |directories| + |links|
    }
  }

  const EMPTY_SESSION := SendSession(map[], map[], map[], {}, 0, 0)

  /** The status texts of the executor, by name. */
  datatype Status =
    | DuplicateFileId  // EEXIST:Duplicate file id
    | TooManyFiles  // ENOSPC:Too many files in transfer session
    | RsyncNotRegular  // EINVAL:Rsync transmission is valid only for regular files
    | CompressionNotRegular  // EINVAL:Compression is valid only for regular files
    | SizeLimits  // EFBIG:Transfer exceeds configured size limits
    | BadDestination  // EINVAL:Destination path is not representable
    | DirectoryNotStaged  // EIO:Could not stage destination directory
    | DestinationIsDirectory  // EISDIR:Destination is a directory
    | LinkNotStaged  // EIO:Could not stage destination link
    | FileNotStaged  // EIO:Could not stage destination file
    | Started  // STARTED
    | Completed  // OK
    | Progress  // PROGRESS
    | DataForDirectory  // EISDIR:Cannot write data to a directory entry
    | LinkAlreadyComplete  // EINVAL:Link data was already completed
    | LinkTooLarge  // EFBIG:Link target exceeds configured size limits
    | InvalidLinkTarget  // EINVAL:Invalid link target
    | FileAlreadyComplete  // EINVAL:File data was already completed
    | FileTooLong  // EFBIG:File exceeds configured size limit
    | InvalidStream  // EINVAL:Invalid transfer stream
    | FileNotWritten  // EIO:Could not write staged file
    | WrongSize  // EINVAL:Received size does not match file metadata
    | FileNotSynchronized  // EIO:Could not synchronize staged file

  /** What a command is answered with; `None` where the executor stays silent. */
  datatype Reply = Reply(status: Status, isError: bool, size: Option<nat>)

  /* ---- Staging an entry ---- */

  /** How the filesystem answers while one entry is staged. */
  datatype StageIo = StageIo(
    destination: Option<Text>,
    directoryOk: bool,
    destinationIsDirectory: bool,
    temporaryOk: bool,
    rsyncBase: Option<Config>)

  function RejectEntry(s: SendSession, id: Text): SendSession {
    s.(rejected := s.rejected + {id})
  }

  ghost function Reservations(files: map<Text, StagedFile>): map<Text, nat> {
    map id | id in files :: files[id].reservation
  }

  ghost function Writings(files: map<Text, StagedFile>): map<Text, nat> {
    map id | id in files :: files[id].bytesWritten
  }

  ghost function LinkSizes(links: map<Text, StagedLink>): map<Text, nat> {
    map id | id in links :: |links[id].data|
  }

  /** Reserved bytes that have not been written yet. */
  ghost function PlannedUnwritten(s: SendSession): nat {
    SaturatingSub(s.reservedBytes, Total(Writings(s.files)))
  }

  function FileTypeOf(command: FileTransferCommand): FileTransferType {
    if command.fileType.Some? then command.fileType.value else Regular
  }

  predicate WantsRsync(command: FileTransferCommand) {
    command.transmissionType == Some(FileTransmissionType.Rsync)
  }

  function ReservationOf(command: FileTransferCommand): u64 {
    if FileTypeOf(command) == Regular && command.size.Some? then command.size.value else 0
  }

  predicate Compressed(command: FileTransferCommand) {
    command.compression == Some(Zlib)
  }

  /** The budget check: what was consumed, what is still promised, and the new promise. */
  predicate FitsBudget(l: Limits, consumed: nat, planned: nat, reservation: nat) {
    reservation <= l.maxFileBytes && consumed + planned + reservation <= l.maxSessionBytes
  }

  function NewWriter(command: FileTransferCommand, io: StageIo, limit: u64): StagedWriter {
    if WantsRsync(command) && io.rsyncBase.Some? && io.rsyncBase.value.Valid()
    then StagedWriter.Rsync(io.rsyncBase.value.(limit := limit), INITIAL, 0, limit)
    else Plain([], limit)
  }

  function OutputLimit(l: Limits, command: FileTransferCommand, reserved: nat): u64
    requires reserved <= l.maxSessionBytes
  {
    if command.size.Some? then command.size.value else Min(l.maxFileBytes, l.maxSessionBytes - reserved)
  }

  /** Add an entry whose path and budget were accepted. */
  function StageAccepted(l: Limits, s: SendSession, command: FileTransferCommand, id: Text, io: StageIo,
                         destination: Text): (SendSession, Reply)
    requires s.reservedBytes <= l.maxSessionBytes
  {
    var fileType := FileTypeOf(command);
    if fileType == Directory then
      if io.directoryOk then (s.(directories := s.directories[id := destination]), Reply(Completed, false, None))
      else (RejectEntry(s, id), Reply(DirectoryNotStaged, true, None))
    else if io.destinationIsDirectory then (RejectEntry(s, id), Reply(DestinationIsDirectory, true, None))
    else if fileType == Symlink || fileType == Link then
      if io.temporaryOk then
        (s.(links := s.links[id := StagedLink(fileType, destination, [], false)]), Reply(Started, false, None))
      else (RejectEntry(s, id), Reply(LinkNotStaged, true, None))
    else if !io.temporaryOk then (RejectEntry(s, id), Reply(FileNotStaged, true, None))
    else
      var writer := NewWriter(command, io, OutputLimit(l, command, s.reservedBytes));
      var reservation := ReservationOf(command);
      (s.(files := s.files[id := StagedFile(destination, command.size, Some(writer), None, 0, reservation,
                                            Compressed(command))],
          reservedBytes := s.reservedBytes + reservation),
       Reply(Started, false, None))
  }

  ghost function StageEntry(l: Limits, s: SendSession, command: FileTransferCommand, id: Text,
                            io: StageIo): (SendSession, Reply)
    requires s.reservedBytes <= l.maxSessionBytes
  {
    if s.ContainsEntry(id) || id in s.rejected then (s, Reply(DuplicateFileId, true, None))
    else if s.EntryCount() + |s.rejected| >= l.maxFiles then
      (s, Reply(TooManyFiles, true, None))
    else if WantsRsync(command) && FileTypeOf(command) != Regular then
      (RejectEntry(s, id), Reply(RsyncNotRegular, true, None))
    else if FileTypeOf(command) != Regular && Compressed(command) then
      (RejectEntry(s, id), Reply(CompressionNotRegular, true, None))
    else if !FitsBudget(l, s.consumedBytes, PlannedUnwritten(s), ReservationOf(command)) then
      (RejectEntry(s, id), Reply(SizeLimits, true, None))
    else if io.destination.None? then
      (RejectEntry(s, id), Reply(BadDestination, true, None))
    else StageAccepted(l, s, command, id, io, io.destination.value)
  }

  /* ---- Data for an entry ---- */

  /**
   * What comes from outside while data is written: how many output bytes the disk takes before it
   * fails, whether the final sync works, what the zlib decoder makes of the data (`None` on an
   * error) and whether its stream is over, and whether the bytes so far are UTF-8.
   */
  datatype WriteIo = WriteIo(accepted: nat, syncOk: bool, inflated: Option<seq<byte>>, inflateDone: bool, utf8: bool)

  datatype LinkTargetKind = FidRelative | FidAbsolute | PathTarget

  datatype LinkTarget = LinkTarget(kind: LinkTargetKind, value: Text)

  const FID_ABS: seq<byte> := [102, 105, 100, 95, 97, 98, 115, 58]
  const FID: seq<byte> := [102, 105, 100, 58]
  const PATH: seq<byte> := [112, 97, 116, 104, 58]

  function SplitLinkTarget(data: seq<byte>): Option<LinkTarget> {
    if FID_ABS <= data then Some(LinkTarget(FidAbsolute, data[|FID_ABS|..]))
    else if FID <= data then Some(LinkTarget(FidRelative, data[|FID|..]))
    else if PATH <= data then Some(LinkTarget(PathTarget, data[|PATH|..]))
    else None
  }

  /** A prefix that says how to read it, then a name that is neither empty nor holds a NUL. */
  function ParseLinkTarget(data: seq<byte>, utf8: bool): Option<LinkTarget> {
    var target := SplitLinkTarget(data);
    if utf8 && target.Some? && target.value.value != [] && 0 !in target.value.value then target else None
  }

  function RejectLink(s: SendSession, id: Text): SendSession {
    s.(links := s.links - {id}, rejected := s.rejected + {id})
  }

  function RejectFile(s: SendSession, id: Text): SendSession {
    if id in s.files then
      s.(files := s.files - {id},
         reservedBytes := SaturatingSub(s.reservedBytes, s.files[id].reservation),
         rejected := s.rejected + {id})
    else s.(rejected := s.rejected + {id})
  }

  function Charge(s: SendSession, bytes: nat): SendSession {
    s.(consumedBytes := Min(s.consumedBytes + bytes, U64_LIMIT - 1))
  }

  predicate LinkDataFits(l: Limits, s: SendSession, link: StagedLink, data: seq<byte>) {
    && |link.data| + |data| <= MAX_FILE_TRANSFER_PATH_BYTES
    && |link.data| + |data| <= l.maxFileBytes
    && |data| <= SaturatingSub(l.maxSessionBytes, s.consumedBytes)
  }

  function LinkData(l: Limits, s: SendSession, id: Text, data: seq<byte>, completes: bool, utf8: bool)
    : (SendSession, Reply)
    requires id in s.links
  {
    var link := s.links[id];
    if link.complete then (RejectLink(s, id), Reply(LinkAlreadyComplete, true, None))
    else if !LinkDataFits(l, s, link, data) then
      (RejectLink(Charge(s, |data|), id), Reply(LinkTooLarge, true, None))
    else
      var all := link.data + data;
      var charged := s.(consumedBytes := s.consumedBytes + |data|);
      if completes && ParseLinkTarget(all, utf8).None? then
        (RejectLink(charged, id), Reply(InvalidLinkTarget, true, None))
      else
        (charged.(links := s.links[id := link.(data := all, complete := completes)]),
         Reply(if completes then Completed else Progress, false, Some(|all|)))
  }

  function WriteStatus(error: WriteError): Status {
    match error
    case SizeLimit => FileTooLong
    case BadStream => InvalidStream
    case Disk => FileNotWritten
  }

  /** The writer after a write that went through, or how far a failed one got; a failed writer is dropped. */
  datatype WriteResult = Wrote(writer: StagedWriter) | Failed(written: nat, error: WriteError)

  function WriterRoom(w: StagedWriter): nat {
    SaturatingSub(if w.Plain? then w.limit else w.config.limit, |w.Written()|)
  }

  /** A failed write got as far as the limit and the disk let it. */
  function FailedWrite(w: StagedWriter, accepted: nat, error: WriteError): WriteResult {
    Failed(|w.Written()| + Min(accepted, WriterRoom(w)), error)
  }

  /** Plain data fills the file up to its limit or the disk's; a delta goes through the patcher first. */
  function WriteThrough(w: StagedWriter, data: seq<byte>, accepted: nat): WriteResult
    requires w.Valid()
  {
    if data == [] then Wrote(w)
    else if w.Plain? then
      if |data| <= WriterRoom(w) && |data| <= accepted then Wrote(w.(content := w.content + data))
      else FailedWrite(w, accepted, if WriterRoom(w) <= accepted then SizeLimit else Disk)
    else if w.received + |data| > DeltaInputLimit(w.config.limit) then Failed(|w.Written()|, SizeLimit)
    else
      match Feed(w.config, SinkEnd(w, accepted), SinkError(w, accepted), w.state, data)
      case Stuck(written, error) => Failed(written, error)
      case Fed(next) => Wrote(w.(state := next, received := w.received + |data|))
  }

  /** Where the staging file behind a patcher stops, and why. */
  function SinkEnd(w: StagedWriter, accepted: nat): nat
    requires w.Rsync?
  {
    Min(w.sinkLimit, |w.Written()| + accepted)
  }

  function SinkError(w: StagedWriter, accepted: nat): WriteError
    requires w.Rsync?
  {
    if w.sinkLimit <= |w.Written()| + accepted then SizeLimit else Disk
  }

  /** What reaches the writer: the data itself, or what the decoder makes of it. */
  function Payload(file: StagedFile, data: seq<byte>, io: WriteIo): Option<seq<byte>> {
    if file.zlib then io.inflated else Some(data)
  }

  /** Closing the writer: a patcher must have seen its whole delta. */
  function CloseWriter(w: StagedWriter): Option<seq<byte>> {
    if w.Plain? then Some(w.content)
    else if |w.state.output| <= w.config.limit && w.received <= DeltaInputLimit(w.config.limit)
            && w.state.remaining == 0 && w.state.pending == [] && w.state.seen
      then Some(w.state.output)
    else None
  }

  /** What a file may hold right now: its declared size, the file limit, and what the session can still consume. */
  function WriteLimit(l: Limits, s: SendSession, file: StagedFile): nat {
    Min(Min(if file.expectedSize.Some? then file.expectedSize.value else l.maxFileBytes, l.maxFileBytes),
        Min(file.bytesWritten + SaturatingSub(l.maxSessionBytes, s.consumedBytes), U64_LIMIT - 1))
  }

  function FileData(l: Limits, s: SendSession, id: Text, data: seq<byte>, completes: bool, io: WriteIo)
    : (SendSession, Reply)
    requires id in s.files && (s.files[id].writer.Some? ==> s.files[id].writer.value.Valid())
  {
    var file := s.files[id];
    if file.writer.None? then (RejectFile(s, id), Reply(FileAlreadyComplete, true, None))
    else
      var writer := file.writer.value.SetLimit(WriteLimit(l, s, file));
      var payload := Payload(file, data, io);
      var result := if payload.None? then FailedWrite(writer, io.accepted, BadStream)
                    else WriteThrough(writer, payload.value, io.accepted);
      match result
      case Failed(written, error) =>
        (RejectFile(Charge(s, SaturatingSub(written, file.bytesWritten)), id), Reply(WriteStatus(error), true, None))
      case Wrote(next) => FileWritten(l, s, id, next, completes, io)
  }

  /** After a successful write: charge it, extend the reservation, and close the file if this was its last data. */
  function FileWritten(l: Limits, s: SendSession, id: Text, writer: StagedWriter, completes: bool,
                       io: WriteIo): (SendSession, Reply)
    requires id in s.files
  {
    var file := s.files[id];
    var written := |writer.Written()|;
    var charged := Charge(s, SaturatingSub(written, file.bytesWritten));
    var additional := SaturatingSub(written, file.reservation);
    if s.reservedBytes + additional > l.maxSessionBytes then
      (RejectFile(charged, id), Reply(SizeLimits, true, None))
    else
      var grown := file.(reservation := file.reservation + additional, bytesWritten := written, writer := Some(writer));
      var stored := charged.(files := s.files[id := grown], reservedBytes := s.reservedBytes + additional);
      if !completes then (stored, Reply(Progress, false, Some(written))) else
        var content := CloseWriter(writer);
        if content.None? || (file.zlib && !io.inflateDone)
        then (RejectFile(stored, id), Reply(InvalidStream, true, None))
        else if file.expectedSize.Some? && file.expectedSize.value != written then
          (RejectFile(stored, id), Reply(WrongSize, true, None))
        else if !io.syncOk then (RejectFile(stored, id), Reply(FileNotSynchronized, true, None))
        else (stored.(files := s.files[id := grown.(writer := None, temporary := content)]),
              Reply(Completed, false, Some(written)))
  }

  /** A data command; unknown and rejected ids are ignored without a reply. */
  function EntryData(l: Limits, s: SendSession, id: Text, data: seq<byte>, completes: bool, io: WriteIo)
    : (SendSession, Option<Reply>)
    requires id in s.files ==> (s.files[id].writer.Some? ==> s.files[id].writer.value.Valid())
  {
    if id in s.rejected then (s, None)
    else if id in s.directories then (s, Some(Reply(DataForDirectory, true, None)))
    else if id in s.links then
      var (s', reply) := LinkData(l, s, id, data, completes, io.utf8);
      (s', Some(reply))
    else if id in s.files then
      var (s', reply) := FileData(l, s, id, data, completes, io);
      (s', Some(reply))
    else (s, None)
  }

  /* ---- The budget invariant ---- */

  predicate FileOk(l: Limits, f: StagedFile) {
    && (f.writer.Some? <==> f.temporary.None?)
    && (f.writer.Some? ==> f.writer.value.Valid())
    && f.bytesWritten == |f.Content()| <= f.reservation && f.bytesWritten <= l.maxFileBytes
    && (f.expectedSize.Some? ==> f.reservation == f.expectedSize.value <= l.maxFileBytes)
    && (f.expectedSize.None? ==> f.reservation == f.bytesWritten)
    && (f.temporary.Some? && f.expectedSize.Some? ==> f.bytesWritten == f.expectedSize.value)
  }

  predicate LinkOk(k: StagedLink) {
    k.fileType in {Symlink, Link} && (k.complete ==> exists utf8 :: ParseLinkTarget(k.data, utf8).Some?)
  }

  ghost predicate EachOk(l: Limits, s: SendSession) {
    && (forall id :: id in s.files ==> FileOk(l, s.files[id]))
    && (forall id :: id in s.links ==> LinkOk(s.links[id]))
  }

  /** An id is one entry or a rejected one, not both and not two. */
  ghost predicate Disjoint(s: SendSession) {
    && (forall id :: id in s.files ==> id !in s.directories && id !in s.links && id !in s.rejected)
    && (forall id :: id in s.directories ==> id !in s.links && id !in s.rejected)
    && (forall id :: id in s.links ==> id !in s.rejected)
  }

  predicate CountOk(l: Limits, s: SendSession) {
    s.EntryCount() + |s.rejected| <= l.maxFiles
  }

  ghost predicate EntriesOk(l: Limits, s: SendSession) {
    EachOk(l, s) && Disjoint(s) && CountOk(l, s)
  }

  ghost function LiveBytes(s: SendSession): nat {
    Total(Writings(s.files)) + Total(LinkSizes(s.links))
  }

  /** Reserved is exactly what live files reserve; live bytes were all consumed; both within the session limit. */
  ghost predicate BudgetOk(l: Limits, s: SendSession) {
    && s.reservedBytes == Total(Reservations(s.files)) <= l.maxSessionBytes
    && LiveBytes(s) <= s.consumedBytes < U64_LIMIT
    && LiveBytes(s) <= l.maxSessionBytes
    && (s.rejected == {} ==> s.consumedBytes == LiveBytes(s))
  }

  ghost predicate SessionOk(l: Limits, s: SendSession) {
    l.Valid() && EntriesOk(l, s) && BudgetOk(l, s)
  }
}
