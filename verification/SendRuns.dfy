/** Whole runs of one send session: the budget, the promise of admission, and what each file holds. */
module SendRuns {
  import opened Bytes
  import opened ByteStreams
  import opened DeltaPatcher
  import opened TransferCommands
  import opened MapSums
  import opened StagedDeltas
  import opened SendSessions
  import opened SendBudget

  datatype Event =
    | Stage(command: FileTransferCommand, id: Text, stageIo: StageIo)
    | Data(dataId: Text, data: seq<byte>, completes: bool, writeIo: WriteIo)

  ghost function Step(l: Limits, s: SendSession, e: Event): (t: SendSession)
    requires SessionOk(l, s)
    ensures SessionOk(l, t)
  {
    match e
    case Stage(command, id, io) => StageOk(l, s, command, id, io); StageEntry(l, s, command, id, io).0
    case Data(id, data, completes, io) =>
      DataOk(l, s, id, data, completes, io);
      EntryData(l, s, id, data, completes, io).0
  }

  /** The session after these commands, from its first one on. */
  ghost function After(l: Limits, events: seq<Event>): (s: SendSession)
    requires l.Valid()
    ensures SessionOk(l, s)
  {
    if events == [] then EmptyOk(l); EMPTY_SESSION
    else Step(l, After(l, events[..|events| - 1]), events[|events| - 1])
  }

  lemma StepStages(l: Limits, s: SendSession, command: FileTransferCommand, id: Text, io: StageIo)
    requires SessionOk(l, s)
    ensures s.reservedBytes <= l.maxSessionBytes
    ensures Step(l, s, Stage(command, id, io)) == StageEntry(l, s, command, id, io).0
  {}

  lemma StepWrites(l: Limits, s: SendSession, id: Text, data: seq<byte>, completes: bool, io: WriteIo)
    requires SessionOk(l, s)
    ensures id in s.files ==> (s.files[id].writer.Some? ==> s.files[id].writer.value.Valid())
    ensures Step(l, s, Event.Data(id, data, completes, io)) == EntryData(l, s, id, data, completes, io).0
  {}

  lemma AfterSnoc(l: Limits, events: seq<Event>, e: Event)
    requires l.Valid()
    ensures After(l, events + [e]) == Step(l, After(l, events), e)
  {
    hide Step, SessionOk;
    assert (events + [e])[..|events|] == events;
  }

  /** The budget over every run; every subtraction the executor makes is exact. */
  lemma BudgetOverRuns(l: Limits, events: seq<Event>)
    requires l.Valid()
    ensures var s := After(l, events);
            && s.reservedBytes == Total(Reservations(s.files)) <= l.maxSessionBytes
            && (forall id :: id in s.files ==>
                s.files[id].bytesWritten == |s.files[id].Content()| <= s.files[id].reservation)
            && PlannedUnwritten(s) == s.reservedBytes - Total(Writings(s.files))
            && Total(Writings(s.files)) + Total(LinkSizes(s.links)) <= Min(s.consumedBytes, l.maxSessionBytes)
            && s.EntryCount() + |s.rejected| <= l.maxFiles
  {
    hide After;
    PlannedIsExact(l, After(l, events));
  }

  /* ---- Admission is a promise ---- */

  /** What an incomplete plain file accepts, exactly. */
  predicate PlainAccepts(l: Limits, s: SendSession, file: StagedFile, length: nat) {
    && length <= SaturatingSub(l.maxSessionBytes, s.consumedBytes)
    && if file.expectedSize.Some? then file.bytesWritten + length <= file.expectedSize.value
       else file.bytesWritten + length <= l.maxFileBytes && s.reservedBytes + length <= l.maxSessionBytes
  }

  predicate OpenPlain(s: SendSession, id: Text) {
    id in s.files && s.files[id].writer.Some? && s.files[id].writer.value.Plain? && !s.files[id].zlib
  }

  /** The part of acceptance that the writer's own limit decides. */
  predicate WithinLimit(l: Limits, s: SendSession, file: StagedFile, length: nat) {
    && length <= SaturatingSub(l.maxSessionBytes, s.consumedBytes)
    && file.bytesWritten + length <= if file.expectedSize.Some? then file.expectedSize.value else l.maxFileBytes
  }

  lemma PlainWrite(l: Limits, s: SendSession, file: StagedFile, data: seq<byte>, accepted: nat)
    requires l.Valid() && FileOk(l, file) && file.writer.Some? && file.writer.value.Plain? && |data| <= accepted
    requires file.bytesWritten <= l.maxFileBytes
    ensures var writer := file.writer.value.SetLimit(WriteLimit(l, s, file));
            var result := WriteThrough(writer, data, accepted);
            if WithinLimit(l, s, file, |data|)
              then result == Wrote(writer.(content := file.writer.value.content + data))
            else result.Failed? && file.bytesWritten <= result.written && result.error == SizeLimit
  {}

  /** The file was accepted and holds the data, too. */
  ghost predicate Extended(s: SendSession, s': SendSession, id: Text, data: seq<byte>)
    requires id in s.files
  {
    && OpenPlain(s', id) && s'.files[id].Content() == s.files[id].Content() + data
    && s'.consumedBytes == s.consumedBytes + |data| && s'.rejected == s.rejected
    && s'.reservedBytes == s.reservedBytes + (if s.files[id].expectedSize.Some? then 0 else |data|)
    && s'.files == s.files[id := s'.files[id]] && s'.links == s.links && s'.directories == s.directories
  }

  /** The file was dropped, with what it had reserved. */
  ghost predicate Dropped(s: SendSession, s': SendSession, id: Text)
    requires id in s.files
  {
    && s'.files == s.files - {id} && s'.rejected == s.rejected + {id}
    && s'.reservedBytes == s.reservedBytes - s.files[id].reservation && s'.consumedBytes >= s.consumedBytes
    && s'.links == s.links && s'.directories == s.directories
  }

  lemma DropIs(l: Limits, s: SendSession, id: Text, bytes: nat)
    requires SessionOk(l, s) && id in s.files
    ensures Dropped(s, RejectFile(Charge(s, bytes), id), id)
  {
    hide EntriesOk;
    TotalAtLeast(Reservations(s.files), id);
  }

  /** The file was closed with the data, too. */
  ghost predicate Closed(s: SendSession, s': SendSession, id: Text, data: seq<byte>)
    requires id in s.files
  {
    && id in s'.files && s'.files[id].writer.None? && s'.files[id].temporary == Some(s.files[id].Content() + data)
    && s'.consumedBytes == s.consumedBytes + |data| && s'.rejected == s.rejected
    && s'.reservedBytes == s.reservedBytes + (if s.files[id].expectedSize.Some? then 0 else |data|)
    && s'.files == s.files[id := s'.files[id]] && s'.links == s.links && s'.directories == s.directories
  }

  /** What becomes of accepted data: it is kept, and a last piece must reach the declared size and the disk. */
  ghost predicate Taken(s: SendSession, s': SendSession, id: Text, data: seq<byte>, completes: bool, syncOk: bool,
                        reply: Reply)
    requires id in s.files
  {
    var file := s.files[id];
    var written := file.bytesWritten + |data|;
    if !completes then Extended(s, s', id, data) && reply == Reply(Progress, false, Some(written))
    else if file.expectedSize.Some? && file.expectedSize.value != written then
      Dropped(s, s', id) && reply == Reply(WrongSize, true, None)
    else if !syncOk then Dropped(s, s', id) && reply == Reply(FileNotSynchronized, true, None)
    else Closed(s, s', id, data) && reply == Reply(Completed, false, Some(written))
  }

  /** A plain write on a working disk goes through exactly when accepted; otherwise its file is rejected for size. */
  lemma PlainDataIff(l: Limits, s: SendSession, id: Text, data: seq<byte>, completes: bool, io: WriteIo)
    requires SessionOk(l, s) && OpenPlain(s, id) && |data| <= io.accepted && s.files[id].writer.value.Valid()
    ensures var (s', reply) := FileData(l, s, id, data, completes, io);
            if PlainAccepts(l, s, s.files[id], |data|) then Taken(s, s', id, data, completes, io.syncOk, reply)
            else Dropped(s, s', id) && reply.isError && reply.status in {SizeLimits, FileTooLong}
  {
    hide SessionOk, RejectFile, WriteThrough, WriteLimit, Dropped, Charge, Taken, FileWritten;
    CountersOf(l, s);
    var file := s.files[id];
    PlainWrite(l, s, file, data, io.accepted);
    var writer := file.writer.value.SetLimit(WriteLimit(l, s, file));
    var result := WriteThrough(writer, data, io.accepted);
    assert Payload(file, data, io) == Some(data);
    if result.Failed? {
      DropIs(l, s, id, SaturatingSub(result.written, file.bytesWritten));
    } else {
      PlainWritten(l, s, id, data, result.writer, completes, io);
    }
  }

  /** What is stored before the file is closed or dropped. */
  function Stored(s: SendSession, id: Text, writer: StagedWriter): SendSession
    requires id in s.files
  {
    var file := s.files[id];
    var additional := SaturatingSub(|writer.Written()|, file.reservation);
    var grown := file.(reservation := file.reservation + additional, bytesWritten := |writer.Written()|,
                       writer := Some(writer));
    Charge(s, SaturatingSub(|writer.Written()|, file.bytesWritten))
      .(files := s.files[id := grown], reservedBytes := s.reservedBytes + additional)
  }

  /** A file that is stored and then dropped takes its grown reservation along. */
  lemma DropStoredIs(l: Limits, s: SendSession, id: Text, writer: StagedWriter)
    requires SessionOk(l, s) && id in s.files
    ensures Dropped(s, RejectFile(Stored(s, id, writer), id), id)
  {
    hide EntriesOk;
    TotalAtLeast(Reservations(s.files), id);
    var stored := Stored(s, id, writer);
    assert stored.files - {id} == s.files - {id};
  }

  lemma PlainWritten(l: Limits, s: SendSession, id: Text, data: seq<byte>, writer: StagedWriter, completes: bool,
                     io: WriteIo)
    requires SessionOk(l, s) && OpenPlain(s, id) && WithinLimit(l, s, s.files[id], |data|)
    requires writer.Plain? && writer.content == s.files[id].Content() + data
    ensures var (s', reply) := FileWritten(l, s, id, writer, completes, io);
            if PlainAccepts(l, s, s.files[id], |data|) then Taken(s, s', id, data, completes, io.syncOk, reply)
            else Dropped(s, s', id) && reply.isError && reply.status in {SizeLimits, FileTooLong}
  {
    hide SessionOk, RejectFile, Dropped, FileWritten, Taken;
    CountersOf(l, s);
    if PlainAccepts(l, s, s.files[id], |data|) {
      PlainStored(l, s, id, data, writer, completes, io);
    } else {
      WrittenTooMuch(l, s, id, writer, completes, io);
    }
  }

  lemma WrittenTooMuch(l: Limits, s: SendSession, id: Text, writer: StagedWriter, completes: bool, io: WriteIo)
    requires SessionOk(l, s) && id in s.files
    requires s.reservedBytes + SaturatingSub(|writer.Written()|, s.files[id].reservation) > l.maxSessionBytes
    ensures var (s', reply) := FileWritten(l, s, id, writer, completes, io);
            Dropped(s, s', id) && reply.isError && reply.status == SizeLimits
  {
    hide SessionOk, RejectFile, Dropped, CloseWriter;
    DropIs(l, s, id, SaturatingSub(|writer.Written()|, s.files[id].bytesWritten));
  }

  lemma PlainStored(l: Limits, s: SendSession, id: Text, data: seq<byte>, writer: StagedWriter, completes: bool,
                    io: WriteIo)
    requires SessionOk(l, s) && OpenPlain(s, id) && PlainAccepts(l, s, s.files[id], |data|)
    requires s.reservedBytes <= l.maxSessionBytes && s.consumedBytes < U64_LIMIT && FileOk(l, s.files[id])
    requires writer.Plain? && writer.content == s.files[id].Content() + data
    ensures var (s', reply) := FileWritten(l, s, id, writer, completes, io);
            Taken(s, s', id, data, completes, io.syncOk, reply)
  {
    hide SessionOk, RejectFile, Dropped;
    DropStoredIs(l, s, id, writer);
  }

  /** No entry was ever rejected and no link holds data. */
  ghost predicate Unspoilt(s: SendSession) {
    s.rejected == {} && Total(LinkSizes(s.links)) == 0
  }

  /** Then everything consumed is in live files, and every outstanding reservation can still be consumed. */
  lemma ReservationsCovered(l: Limits, s: SendSession)
    requires SessionOk(l, s) && Unspoilt(s)
    ensures forall id :: id in s.files ==>
              s.files[id].reservation - s.files[id].bytesWritten <= SaturatingSub(l.maxSessionBytes, s.consumedBytes)
  {
    hide EntriesOk, Total;
    PlannedIsExact(l, s);
  }

  /**
   * Admission is a promise: in a run that rejected nothing and put no data in links, a plain file
   * admitted with a declared size takes any data up to that size, whatever else was written; and the
   * last piece completes the file when it reaches the size and the disk.
   */
  lemma AdmissionIsAPromise(l: Limits, events: seq<Event>, id: Text, data: seq<byte>, completes: bool, io: WriteIo)
    requires l.Valid() && Unspoilt(After(l, events)) && OpenPlain(After(l, events), id)
    requires var file := After(l, events).files[id];
             file.expectedSize.Some? && file.bytesWritten + |data| <= file.expectedSize.value
             && file.writer.value.Valid()
    requires |data| <= io.accepted
    ensures var s := After(l, events);
            var (s', reply) := FileData(l, s, id, data, completes, io);
            Taken(s, s', id, data, completes, io.syncOk, reply) && reply.status !in {SizeLimits, FileTooLong}
  {
    hide After, SessionOk, FileData, Unspoilt, FileOk, Dropped, Extended, Closed;
    var s := After(l, events);
    CountersOf(l, s);
    ReservationsCovered(l, s);
    DeclaredReservation(l, s.files[id]);
    PlainDataIff(l, s, id, data, completes, io);
  }

  lemma DeclaredReservation(l: Limits, file: StagedFile)
    requires FileOk(l, file) && file.expectedSize.Some?
    ensures file.reservation == file.expectedSize.value
  {}

  /* ---- Deltas ---- */

  predicate OpenDelta(s: SendSession, id: Text) {
    id in s.files && s.files[id].writer.Some? && s.files[id].writer.value.Rsync? && !s.files[id].zlib
  }

  /** What the patcher makes of the data under the limit of this moment. */
  function Patched(l: Limits, s: SendSession, file: StagedFile, data: seq<byte>): Result<State, IoError>
    requires l.Valid() && file.writer.Some? && file.writer.value.Rsync? && file.writer.value.Valid()
  {
    var w := file.writer.value.SetLimit(LimitNow(l, s, file));
    Run(w.config, w.state, data)
  }

  function LimitNow(l: Limits, s: SendSession, file: StagedFile): (limit: u64)
    ensures limit == WriteLimit(l, s, file)
  {
    WriteLimit(l, s, file)
  }

  /**
   * What an incomplete delta takes, exactly: input and output limits of this moment, a well-formed
   * continuation, the limit that the staging file was created with, and the session's reservations.
   */
  predicate DeltaAccepts(l: Limits, s: SendSession, file: StagedFile, data: seq<byte>)
    requires l.Valid() && file.writer.Some? && file.writer.value.Rsync? && file.writer.value.Valid()
  {
    data == [] ||
    (&& file.writer.value.received + |data| <= DeltaInputLimit(LimitNow(l, s, file))
     && var patched := Patched(l, s, file, data);
        && patched.Ok?
        && (|patched.value.output| <= file.writer.value.sinkLimit || |patched.value.output| == |file.Content()|)
        && s.reservedBytes + SaturatingSub(|patched.value.output|, file.reservation) <= l.maxSessionBytes)
  }

  /** The file was accepted and holds the output of the patcher. */
  ghost predicate PatchedTo(s: SendSession, s': SendSession, id: Text, output: seq<byte>)
    requires id in s.files
  {
    && OpenDelta(s', id) && s'.files[id].Content() == output && s'.rejected == s.rejected
    && s'.files == s.files[id := s'.files[id]] && s'.links == s.links && s'.directories == s.directories
    && s'.consumedBytes == Charge(s, SaturatingSub(|output|, s.files[id].bytesWritten)).consumedBytes
    && s'.reservedBytes == s.reservedBytes + SaturatingSub(|output|, s.files[id].reservation)
  }

  lemma DeltaWrite(l: Limits, s: SendSession, file: StagedFile, data: seq<byte>, accepted: nat)
    requires l.Valid() && FileOk(l, file) && file.writer.Some? && file.writer.value.Rsync? && data != []
    requires accepted >= U64_LIMIT
    ensures var w := file.writer.value.SetLimit(LimitNow(l, s, file));
            var r, patched := WriteThrough(w, data, accepted), Patched(l, s, file, data);
            if w.received + |data| <= DeltaInputLimit(w.config.limit) && patched.Ok?
               && (|patched.value.output| <= w.sinkLimit || |patched.value.output| == |file.Content()|)
            then r == Wrote(w.(state := patched.value, received := w.received + |data|))
            else r.Failed?
  {
    hide Feed, Run, WriteLimit;
    var w := file.writer.value.SetLimit(LimitNow(l, s, file));
    FeedIff(w.config, SinkEnd(w, accepted), SinkError(w, accepted), w.state, data);
  }

  /** Delta bytes on a working disk go through exactly when they are accepted; otherwise their file is rejected. */
  lemma DeltaDataIff(l: Limits, s: SendSession, id: Text, data: seq<byte>, io: WriteIo)
    requires SessionOk(l, s) && OpenDelta(s, id) && s.files[id].writer.value.Valid() && l.Valid()
    requires io.accepted >= U64_LIMIT
    ensures var (s', reply) := FileData(l, s, id, data, false, io);
            if DeltaAccepts(l, s, s.files[id], data) then
              && !reply.isError && Patched(l, s, s.files[id], data).Ok?
              && PatchedTo(s, s', id, Patched(l, s, s.files[id], data).value.output)
            else Dropped(s, s', id) && reply.isError
  {
    hide SessionOk, RejectFile, WriteThrough, WriteLimit, Dropped, Charge, Run, FileWritten, PatchedTo, DeltaInputLimit;
    CountersOf(l, s);
    var file := s.files[id];
    var w := file.writer.value.SetLimit(LimitNow(l, s, file));
    var result := WriteThrough(w, data, io.accepted);
    assert Payload(file, data, io) == Some(data);
    if data == [] {
      EmptyWrite(w, io.accepted);
      RunEmpty(w.config, w.state);
      DeltaWritten(l, s, id, w, io);
    } else {
      DeltaWrite(l, s, file, data, io.accepted);
      if result.Failed? {
        DropIs(l, s, id, SaturatingSub(result.written, file.bytesWritten));
      } else {
        DeltaWritten(l, s, id, result.writer, io);
      }
    }
  }

  lemma EmptyWrite(w: StagedWriter, accepted: nat)
    requires w.Valid()
    ensures WriteThrough(w, [], accepted) == Wrote(w)
  {}

  lemma RunEmpty(c: Config, s: State)
    requires 0 < c.blockSize
    ensures Run(c, s, []) == Ok(s)
  {}

  lemma DeltaWritten(l: Limits, s: SendSession, id: Text, writer: StagedWriter, io: WriteIo)
    requires SessionOk(l, s) && OpenDelta(s, id) && writer.Rsync?
    ensures var (s', reply) := FileWritten(l, s, id, writer, false, io);
            if s.reservedBytes + SaturatingSub(|writer.Written()|, s.files[id].reservation) <= l.maxSessionBytes
            then PatchedTo(s, s', id, writer.Written()) && !reply.isError
            else Dropped(s, s', id) && reply.isError
  {
    hide SessionOk, RejectFile, Dropped;
    DropIs(l, s, id, SaturatingSub(|writer.Written()|, s.files[id].bytesWritten));
  }

  /* ---- When consumption stays within the session limit ---- */

  /** Data for an incomplete link that the session has no room for: it is refused, and charged in full. */
  predicate OverrunsWithLink(l: Limits, s: SendSession, e: Event) {
    && e.Data? && e.dataId in s.links && e.dataId !in s.rejected && e.dataId !in s.directories
    && !s.links[e.dataId].complete
    && s.consumedBytes + |e.data| > l.maxSessionBytes && l.maxSessionBytes < U64_LIMIT - 1
  }

  /** Data for a file is charged within the session limit, whether it goes through or fails. */
  lemma FileConsumes(l: Limits, s: SendSession, id: Text, data: seq<byte>, completes: bool, io: WriteIo)
    requires SessionOk(l, s) && id in s.files && (s.files[id].writer.Some? ==> s.files[id].writer.value.Valid())
    ensures var consumed := FileData(l, s, id, data, completes, io).0.consumedBytes;
            s.consumedBytes <= consumed && (s.consumedBytes <= l.maxSessionBytes ==> consumed <= l.maxSessionBytes)
  {
    hide SessionOk, WriteThrough, FileWritten, FailedWrite;
    CountersOf(l, s);
    var file := s.files[id];
    if file.writer.Some? {
      var writer := file.writer.value.SetLimit(LimitNow(l, s, file));
      FailedBounded(writer, io.accepted);
      if Payload(file, data, io).Some? {
        var payload := Payload(file, data, io).value;
        WriteBounded(writer, payload, io.accepted);
        if WriteThrough(writer, payload, io.accepted).Wrote? {
          WrittenConsumes(l, s, id, WriteThrough(writer, payload, io.accepted).writer, completes, io);
        }
      }
    }
  }

  lemma FailedBounded(w: StagedWriter, accepted: nat)
    ensures forall error ::
              && FailedWrite(w, accepted, error).Failed?
              && FailedWrite(w, accepted, error).written <= |w.Written()| + WriterRoom(w)
  {}

  lemma WrittenConsumes(l: Limits, s: SendSession, id: Text, writer: StagedWriter, completes: bool, io: WriteIo)
    requires id in s.files
    ensures FileWritten(l, s, id, writer, completes, io).0.consumedBytes
         == Charge(s, SaturatingSub(|writer.Written()|, s.files[id].bytesWritten)).consumedBytes
  {
    hide CloseWriter, Charge;
  }

  lemma LinkConsumes(l: Limits, s: SendSession, id: Text, data: seq<byte>, completes: bool, utf8: bool)
    requires id in s.links && s.consumedBytes < U64_LIMIT
    ensures var consumed := LinkData(l, s, id, data, completes, utf8).0.consumedBytes;
            && s.consumedBytes <= consumed
            && (s.consumedBytes <= l.maxSessionBytes ==>
                  (consumed <= l.maxSessionBytes <==>
                     s.links[id].complete || s.consumedBytes + |data| <= l.maxSessionBytes
                       || l.maxSessionBytes == U64_LIMIT - 1))
  {
    hide ParseLinkTarget;
  }

  /** No command gives consumed bytes back; one keeps them within the limit unless it overruns with a link. */
  lemma ConsumedStepIff(l: Limits, s: SendSession, e: Event)
    requires SessionOk(l, s)
    ensures s.consumedBytes <= Step(l, s, e).consumedBytes
    ensures s.consumedBytes <= l.maxSessionBytes ==>
              (Step(l, s, e).consumedBytes <= l.maxSessionBytes <==> !OverrunsWithLink(l, s, e))
  {
    hide SessionOk, StageEntry, EntryData, OverrunsWithLink;
    match e {
      case Stage(command, id, io) =>
        StepStages(l, s, command, id, io);
        StagingConsumesNothing(l, s, command, id, io);
        OnlyDataOverruns(l, s, e);
      case Data(id, data, completes, io) =>
        StepWrites(l, s, id, data, completes, io);
        DataConsumes(l, s, e);
    }
  }

  lemma OnlyDataOverruns(l: Limits, s: SendSession, e: Event)
    ensures OverrunsWithLink(l, s, e) ==> e.Data?
  {}

  lemma StagingConsumesNothing(l: Limits, s: SendSession, command: FileTransferCommand, id: Text, io: StageIo)
    requires s.reservedBytes <= l.maxSessionBytes
    ensures StageEntry(l, s, command, id, io).0.consumedBytes == s.consumedBytes
  {
    hide PlannedUnwritten, NewWriter;
  }

  lemma DataConsumes(l: Limits, s: SendSession, e: Event)
    requires SessionOk(l, s) && e.Data?
    requires e.dataId in s.files ==> (s.files[e.dataId].writer.Some? ==> s.files[e.dataId].writer.value.Valid())
    ensures var consumed := EntryData(l, s, e.dataId, e.data, e.completes, e.writeIo).0.consumedBytes;
            && s.consumedBytes <= consumed
            && (s.consumedBytes <= l.maxSessionBytes ==>
                (consumed <= l.maxSessionBytes <==> !OverrunsWithLink(l, s, e)))
  {
    hide SessionOk, LinkData, FileData;
    CountersOf(l, s);
    if e.dataId in s.links {
      LinkConsumes(l, s, e.dataId, e.data, e.completes, e.writeIo.utf8);
    } else if e.dataId in s.files {
      FileConsumes(l, s, e.dataId, e.data, e.completes, e.writeIo);
    }
  }

  /** None of the commands overran with a link when it came. */
  ghost predicate NoneOverruns(l: Limits, events: seq<Event>)
    requires l.Valid()
  {
    forall k :: 0 <= k < |events| ==> !OverrunsWithLink(l, After(l, events[..k]), events[k])
  }

  lemma NoneOverrunsSnoc(l: Limits, events: seq<Event>)
    requires l.Valid() && events != []
    ensures var initial, last := events[..|events| - 1], events[|events| - 1];
            NoneOverruns(l, events) <==> NoneOverruns(l, initial) && !OverrunsWithLink(l, After(l, initial), last)
  {
    hide After, OverrunsWithLink, SessionOk;
    var initial := events[..|events| - 1];
    assert forall k :: 0 <= k < |initial| ==> initial[..k] == events[..k] && initial[k] == events[k];
  }

  /** Over a run, consumed bytes are within the session limit exactly when no command overran with a link. */
  lemma {:induction false} ConsumedWithinIff(l: Limits, events: seq<Event>)
    requires l.Valid()
    ensures After(l, events).consumedBytes <= l.maxSessionBytes <==> NoneOverruns(l, events)
    decreases |events|
  {
    hide Step, SessionOk, OverrunsWithLink, NoneOverruns;
    if events == [] {
      NothingConsumed(l);
    } else {
      var initial, last := events[..|events| - 1], events[|events| - 1];
      ConsumedWithinIff(l, initial);
      ConsumedStepIff(l, After(l, initial), last);
      NoneOverrunsSnoc(l, events);
    }
  }

  lemma NothingConsumed(l: Limits)
    requires l.Valid()
    ensures After(l, []).consumedBytes == 0 && NoneOverruns(l, [])
  {
    hide SessionOk;
  }
}
