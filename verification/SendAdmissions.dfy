/** When an entry is staged and its data taken, and what is charged, in plain conditions on command and session. */
module SendAdmissions {
  import opened Bytes
  import opened StagedDeltas
  import opened TransferCommands
  import opened MapSums
  import opened SendSessions
  import opened SendBudget
  import opened DeltaPatcher
  import opened SendRuns
  import opened SendContents
  import opened SendLinks

  /* ---- Staging ---- */

  predicate IsRegular(command: FileTransferCommand) {
    command.fileType in {None, Some(Regular)}
  }

  /** The bytes that a regular file declares; any other entry declares none. */
  function Declared(command: FileTransferCommand): nat {
    if IsRegular(command) && command.size.Some? then command.size.value else 0
  }

  /** What each live file may still write of what it reserved. */
  ghost function Outstanding(files: map<Text, StagedFile>): map<Text, nat> {
    map id | id in files :: SaturatingSub(files[id].reservation, files[id].bytesWritten)
  }

  predicate IsNew(l: Limits, s: SendSession, id: Text) {
    && id !in s.files && id !in s.directories && id !in s.links && id !in s.rejected
    && |s.files| + |s.directories| + |s.links| + |s.rejected| < l.maxFiles
  }

  /** Only regular files come as deltas or compressed, and what is declared must still be there to be consumed. */
  ghost predicate Affords(l: Limits, s: SendSession, command: FileTransferCommand) {
    && (command.transmissionType == Some(FileTransmissionType.Rsync) || command.compression == Some(Zlib) ==>
          IsRegular(command))
    && Declared(command) <= l.maxFileBytes
    && s.consumedBytes + Total(Outstanding(s.files)) + Declared(command) <= l.maxSessionBytes
  }

  /** The path is one, and the filesystem could stage the entry there. */
  predicate CanStage(command: FileTransferCommand, io: StageIo) {
    && io.destination.Some?
    && if command.fileType == Some(Directory) then io.directoryOk else !io.destinationIsDirectory && io.temporaryOk
  }

  lemma OutstandingIs(l: Limits, s: SendSession)
    requires SessionOk(l, s)
    ensures Total(Outstanding(s.files)) == PlannedUnwritten(s)
  {
    PlannedIsExact(l, s);
    EachWithinReservation(l, s);
    CountersAre(l, s);
    hide SessionOk, Total, PlannedUnwritten;
    TotalOfSums(Outstanding(s.files), Writings(s.files), Reservations(s.files));
  }

  lemma CountersAre(l: Limits, s: SendSession)
    requires SessionOk(l, s)
    ensures s.reservedBytes == Total(Reservations(s.files)) <= l.maxSessionBytes
    ensures PlannedUnwritten(s) == SaturatingSub(s.reservedBytes, Total(Writings(s.files)))
  {
    hide EntriesOk;
  }

  lemma EachWithinReservation(l: Limits, s: SendSession)
    requires SessionOk(l, s)
    ensures forall id :: id in s.files ==> s.files[id].bytesWritten <= s.files[id].reservation
  {
    hide BudgetOk;
  }

  /** What an admitted entry adds, and nothing else. */
  ghost predicate Stages(s: SendSession, t: SendSession, command: FileTransferCommand, id: Text, io: StageIo)
    requires io.destination.Some?
  {
    match command.fileType
    case Some(Directory) => t == s.(directories := s.directories[id := io.destination.value])
    case Some(Symlink) => t == s.(links := s.links[id := StagedLink(Symlink, io.destination.value, [], false)])
    case Some(Link) => t == s.(links := s.links[id := StagedLink(Link, io.destination.value, [], false)])
    case _ =>
      && id in t.files
      && t == s.(files := s.files[id := t.files[id]], reservedBytes := s.reservedBytes + Declared(command))
      && StagesFile(t.files[id], command, io)
  }

  ghost predicate StagesFile(f: StagedFile, command: FileTransferCommand, io: StageIo) {
    && StagedAs(f, command, io) && f.temporary.None? && f.reservation == Declared(command) && f.bytesWritten == 0
    && Decodes(f, BaseOf(command, io), [])
  }

  lemma AcceptedStages(l: Limits, s: SendSession, command: FileTransferCommand, id: Text, io: StageIo)
    requires s.reservedBytes <= l.maxSessionBytes && io.destination.Some?
    ensures var (t, reply) := StageAccepted(l, s, command, id, io, io.destination.value);
            if CanStage(command, io) then
              Stages(s, t, command, id, io)
              && reply == Reply(if command.fileType == Some(Directory) then Completed else Started, false, None)
            else t == s.(rejected := s.rejected + {id}) && reply.isError && reply.size == None
  {}

  lemma EntryIsAccepted(l: Limits, s: SendSession, command: FileTransferCommand, id: Text, io: StageIo)
    requires s.reservedBytes <= l.maxSessionBytes && Total(Outstanding(s.files)) == PlannedUnwritten(s)
    ensures var (t, reply) := StageEntry(l, s, command, id, io);
            if IsNew(l, s, id) && Affords(l, s, command) && io.destination.Some? then
              (t, reply) == StageAccepted(l, s, command, id, io, io.destination.value)
            else
              && t == (if IsNew(l, s, id) then s.(rejected := s.rejected + {id}) else s)
              && reply.isError && reply.size == None
  {
    hide Total, Outstanding, PlannedUnwritten, StageAccepted, IsNew, Affords, WantsRsync, Compressed, FileTypeOf;
    hide FitsBudget, SendSession.ContainsEntry, SendSession.EntryCount;
    NewIs(l, s, id);
    AffordsIs(l, s, command);
  }

  lemma NewIs(l: Limits, s: SendSession, id: Text)
    ensures IsNew(l, s, id) <==>
              !s.ContainsEntry(id) && id !in s.rejected && s.EntryCount() + |s.rejected| < l.maxFiles
  {}

  lemma AffordsIs(l: Limits, s: SendSession, command: FileTransferCommand)
    requires Total(Outstanding(s.files)) == PlannedUnwritten(s)
    ensures Affords(l, s, command) <==>
              && (WantsRsync(command) || Compressed(command) ==> FileTypeOf(command) == Regular)
              && FitsBudget(l, s.consumedBytes, PlannedUnwritten(s), ReservationOf(command))
  {
    hide Total, Outstanding, PlannedUnwritten;
  }

  /**
   * An entry is staged exactly when its id is new, there is room for one more, what it declares is
   * within both limits after all that was consumed and is still outstanding, and its path can be
   * staged. Otherwise nothing is staged, and the id is spent unless it was known or there was no room.
   */
  lemma StageIff(l: Limits, s: SendSession, command: FileTransferCommand, id: Text, io: StageIo)
    requires SessionOk(l, s)
    ensures s.reservedBytes <= l.maxSessionBytes
    ensures var (t, reply) := StageEntry(l, s, command, id, io);
            if IsNew(l, s, id) && Affords(l, s, command) && CanStage(command, io) then
              Stages(s, t, command, id, io)
              && reply == Reply(if command.fileType == Some(Directory) then Completed else Started, false, None)
            else
              && t == (if IsNew(l, s, id) then s.(rejected := s.rejected + {id}) else s)
              && reply.isError && reply.size == None
  {
    CountersAre(l, s);
    OutstandingIs(l, s);
    hide SessionOk, Total, Stages, StageAccepted, PlannedUnwritten, StageEntry, IsNew, Affords;
    EntryIsAccepted(l, s, command, id, io);
    if io.destination.Some? {
      AcceptedStages(l, s, command, id, io);
    }
  }

  /* ---- Link data ---- */

  /** The joined data says, in UTF-8 and in one of the three ways, what the link leads to. */
  ghost predicate SaysTarget(data: seq<byte>, utf8: bool) {
    utf8 && exists kind: LinkTargetKind, value: Text :: IsName(value) && Names(data, kind, value)
  }

  ghost predicate TakesLinkData(l: Limits, s: SendSession, k: StagedLink, data: seq<byte>, completes: bool,
                                utf8: bool) {
    && !k.complete && |k.data| + |data| <= 4096 && |k.data| + |data| <= l.maxFileBytes
    && (data == [] || s.consumedBytes + |data| <= l.maxSessionBytes)
    && (completes ==> SaysTarget(k.data + data, utf8))
  }

  lemma TargetSaid(data: seq<byte>, utf8: bool)
    ensures SaysTarget(data, utf8) <==> ParseLinkTarget(data, utf8).Some?
  {
    hide Names, ParseLinkTarget, IsName;
    if ParseLinkTarget(data, utf8).Some? {
      var target := ParseLinkTarget(data, utf8).value;
      TargetIs(data, utf8, target.value, target.kind);
    }
    if SaysTarget(data, utf8) {
      var kind: LinkTargetKind, value: Text :| IsName(value) && Names(data, kind, value);
      TargetIs(data, utf8, value, kind);
    }
  }

  /**
   * Link data is taken exactly when the link is open, the joined data is within its bounds and the
   * session's, and, when it completes the link, says what the link leads to; else the link is given up.
   */
  lemma LinkDataIff(l: Limits, s: SendSession, id: Text, data: seq<byte>, completes: bool, utf8: bool)
    requires id in s.links
    ensures var (t, reply) := LinkData(l, s, id, data, completes, utf8);
            var k := s.links[id];
            if TakesLinkData(l, s, k, data, completes, utf8) then
              && t == s.(links := s.links[id := k.(data := k.data + data, complete := completes)],
                         consumedBytes := s.consumedBytes + |data|)
              && reply == Reply(if completes then Completed else Progress, false, Some(|k.data| + |data|))
            else
              && t.links == s.links - {id} && t.rejected == s.rejected + {id}
              && t.files == s.files && t.directories == s.directories && t.reservedBytes == s.reservedBytes
              && reply.isError && reply.size == None
  {
    hide ParseLinkTarget, SaysTarget;
    TargetSaid(s.links[id].data + data, utf8);
  }

  /* ---- Data that nothing takes ---- */

  /** Data for an id that is unknown or was given up is ignored without a word, and a directory takes none. */
  lemma UnknownDataIsIgnored(l: Limits, s: SendSession, id: Text, data: seq<byte>, completes: bool, io: WriteIo)
    requires id !in s.files && id !in s.links
    ensures var (t, reply) := EntryData(l, s, id, data, completes, io);
            && t == s
            && (reply.Some? <==> id in s.directories && id !in s.rejected)
            && (reply.Some? ==> reply == Some(Reply(DataForDirectory, true, None)))
  {
    hide FileData, LinkData;
  }

  /** What a plain file may still grow by: to its declared size or the file limit, and as the session can consume. */
  function RoomFor(l: Limits, s: SendSession, file: StagedFile): nat {
    Min(SaturatingSub(if file.expectedSize.Some? then file.expectedSize.value else l.maxFileBytes, file.bytesWritten),
        SaturatingSub(l.maxSessionBytes, s.consumedBytes))
  }

  /** Plain data that fails fills the file up to its room or to where the disk failed, and just that is charged. */
  lemma PlainFailureCharges(l: Limits, s: SendSession, id: Text, data: seq<byte>, completes: bool, io: WriteIo)
    requires SessionOk(l, s) && OpenPlain(s, id) && s.files[id].writer.value.Valid()
    requires |data| > Min(RoomFor(l, s, s.files[id]), io.accepted)
    ensures var (t, reply) := FileData(l, s, id, data, completes, io);
            var room := RoomFor(l, s, s.files[id]);
            && GivesUp(s, t, id, Min(room, io.accepted))
            && reply == Reply(if room <= io.accepted then FileTooLong else FileNotWritten, true, None)
  {
    OpenFileIs(l, s, id);
    hide SessionOk, WriteThrough, FileOk, FileData, RejectFile, Charge, RoomFor, GivesUp;
    RoomIs(l, s, s.files[id]);
    FailureIs(l, s, id, data, completes, io);
    RejectDrops(s, id, Min(RoomFor(l, s, s.files[id]), io.accepted));
  }

  /** The file is given up, and this much more counts as consumed. */
  predicate GivesUp(s: SendSession, t: SendSession, id: Text, bytes: nat) {
    id !in t.files && id in t.rejected && t.consumedBytes == Min(s.consumedBytes + bytes, U64_LIMIT - 1)
  }

  lemma FailureIs(l: Limits, s: SendSession, id: Text, data: seq<byte>, completes: bool, io: WriteIo)
    requires l.Valid() && OpenPlain(s, id) && FileOk(l, s.files[id]) && s.consumedBytes < U64_LIMIT
    requires |data| > Min(RoomFor(l, s, s.files[id]), io.accepted)
    ensures var room := RoomFor(l, s, s.files[id]);
            FileData(l, s, id, data, completes, io)
            == (RejectFile(Charge(s, Min(room, io.accepted)), id),
                Reply(if room <= io.accepted then FileTooLong else FileNotWritten, true, None))
  {
    hide WriteThrough, RejectFile, Charge, FileWritten, RoomFor, WriterRoom;
    var file := s.files[id];
    RoomIs(l, s, file);
    PlainWriteFails(file.writer.value.SetLimit(LimitNow(l, s, file)), data, io.accepted);
  }

  lemma PlainWriteFails(w: StagedWriter, data: seq<byte>, accepted: nat)
    requires w.Plain? && w.Valid() && |data| > Min(WriterRoom(w), accepted)
    ensures WriteThrough(w, data, accepted) == Failed(|w.Written()| + Min(accepted, WriterRoom(w)),
                                                      if WriterRoom(w) <= accepted then SizeLimit else Disk)
  {
    hide WriterRoom;
  }

  lemma OpenFileIs(l: Limits, s: SendSession, id: Text)
    requires SessionOk(l, s) && id in s.files
    ensures l.Valid() && FileOk(l, s.files[id]) && s.consumedBytes < U64_LIMIT
  {}

  lemma RoomIs(l: Limits, s: SendSession, file: StagedFile)
    requires l.Valid() && FileOk(l, file) && file.writer.Some? && file.writer.value.Plain?
    requires s.consumedBytes < U64_LIMIT
    ensures WriterRoom(file.writer.value.SetLimit(LimitNow(l, s, file))) == RoomFor(l, s, file)
    ensures LimitNow(l, s, file) == WriteLimit(l, s, file)
    ensures |file.writer.value.Written()| == file.bytesWritten
  {}

  /* ---- The last data of a delta ---- */

  /** The patcher has seen the checksum, with nothing left open, and both of its limits still hold. */
  predicate Whole(l: Limits, s: SendSession, file: StagedFile, data: seq<byte>, end: State)
    requires file.writer.Some? && file.writer.value.Rsync?
  {
    && end.seen && end.remaining == 0 && end.pending == [] && |end.output| <= LimitNow(l, s, file)
    && file.writer.value.received + |data| <= DeltaInputLimit(LimitNow(l, s, file))
  }

  /** The file is complete with this content, and the peer is told its size. */
  predicate ClosedWith(t: SendSession, id: Text, output: seq<byte>, reply: Reply) {
    && id in t.files && t.files[id].temporary == Some(output) && t.files[id].writer.None?
    && reply == Reply(Completed, false, Some(|output|))
  }

  predicate Lost(t: SendSession, id: Text, reply: Reply) {
    id !in t.files && id in t.rejected && reply.isError
  }

  /**
   * The last data of a delta completes its file exactly when the patcher takes it, is then at its end,
   * and has put out as many bytes as were declared, if any were; the file is then that output.
   */
  lemma DeltaClosesIff(l: Limits, s: SendSession, id: Text, data: seq<byte>, io: WriteIo)
    requires SessionOk(l, s) && OpenDelta(s, id) && s.files[id].writer.value.Valid() && l.Valid()
    requires io.accepted >= U64_LIMIT && io.syncOk
    ensures var (t, reply) := FileData(l, s, id, data, true, io);
            var file := s.files[id];
            if DeltaAccepts(l, s, file, data) && Patched(l, s, file, data).Ok?
               && Whole(l, s, file, data, Patched(l, s, file, data).value)
               && (file.expectedSize.Some? ==> file.expectedSize.value == |Patched(l, s, file, data).value.output|)
            then
              var output := Patched(l, s, file, data).value.output;
              ClosedWith(t, id, output, reply)
            else Lost(t, id, reply)
  {
    OpenFileIs(l, s, id);
    hide SessionOk, WriteThrough, FileData, FileWritten, DeltaInputLimit, FileOk, Patched, ClosedWith, Lost;
    var file := s.files[id];
    var w := file.writer.value.SetLimit(LimitNow(l, s, file));
    DeltaOutcome(l, s, file, data, io.accepted);
    FileDataIs(l, s, id, data, io);
    if WriteThrough(w, data, io.accepted).Wrote? {
      DeltaCloses(l, s, id, WriteThrough(w, data, io.accepted).writer, io);
    }
  }

  /** Data goes on to what becomes of a write that went through, or the file is given up. */
  lemma FileDataIs(l: Limits, s: SendSession, id: Text, data: seq<byte>, io: WriteIo)
    requires OpenDelta(s, id) && s.files[id].writer.value.Valid() && l.Valid()
    ensures var file := s.files[id];
            var result := WriteThrough(file.writer.value.SetLimit(LimitNow(l, s, file)), data, io.accepted);
            var (t, reply) := FileData(l, s, id, data, true, io);
            if result.Wrote? then (t, reply) == FileWritten(l, s, id, result.writer, true, io)
            else Lost(t, id, reply)
  {
    hide WriteThrough, WriteLimit, RejectFile, Charge, FileWritten;
    var file := s.files[id];
    var result := WriteThrough(file.writer.value.SetLimit(LimitNow(l, s, file)), data, io.accepted);
    if result.Failed? {
      RejectDrops(s, id, SaturatingSub(result.written, file.bytesWritten));
    }
  }

  /** An empty write goes through as it is; any other goes to the patcher. */
  lemma DeltaOutcome(l: Limits, s: SendSession, file: StagedFile, data: seq<byte>, accepted: nat)
    requires l.Valid() && FileOk(l, file) && file.writer.Some? && file.writer.value.Rsync?
    requires accepted >= U64_LIMIT
    ensures var w := file.writer.value.SetLimit(LimitNow(l, s, file));
            var r, patched := WriteThrough(w, data, accepted), Patched(l, s, file, data);
            if data == []
               || (w.received + |data| <= DeltaInputLimit(w.config.limit) && patched.Ok?
                   && (|patched.value.output| <= w.sinkLimit || |patched.value.output| == |file.Content()|))
            then patched.Ok? && r == Wrote(w.(state := patched.value, received := w.received + |data|))
            else r.Failed?
  {
    hide WriteThrough, WriteLimit, Run, DeltaInputLimit;
    var w := file.writer.value.SetLimit(LimitNow(l, s, file));
    if data == [] {
      EmptyWrite(w, accepted);
      RunEmpty(w.config, w.state);
    } else {
      DeltaWrite(l, s, file, data, accepted);
    }
  }

  lemma RejectDrops(s: SendSession, id: Text, bytes: nat)
    ensures GivesUp(s, RejectFile(Charge(s, bytes), id), id, bytes)
  {}

  lemma DeltaCloses(l: Limits, s: SendSession, id: Text, w: StagedWriter, io: WriteIo)
    requires id in s.files && w.Rsync? && io.syncOk && !s.files[id].zlib
    ensures var (t, reply) := FileWritten(l, s, id, w, true, io);
            var file := s.files[id];
            if s.reservedBytes + SaturatingSub(|w.Written()|, file.reservation) <= l.maxSessionBytes
               && w.state.seen && w.state.remaining == 0 && w.state.pending == []
               && |w.Written()| <= w.config.limit && w.received <= DeltaInputLimit(w.config.limit)
               && (file.expectedSize.Some? ==> file.expectedSize.value == |w.Written()|)
            then
              ClosedWith(t, id, w.Written(), reply)
            else Lost(t, id, reply)
  {
    hide DeltaInputLimit;
  }
}
