/** What a staged file holds: the data commands for its id since it was staged, decoded. */
module SendContents {
  import opened Bytes
  import opened ByteStreams
  import opened DeltaPatcher
  import opened StagedDeltas
  import opened DeltaMeaning
  import opened DeltaFormat
  import opened TransferCommands
  import opened SendSessions
  import opened SendBudget
  import opened SendRuns

  const NO_LIMIT: u64 := U64_LIMIT - 1

  /** A higher output limit lets everything through that a lower one did, to the same effect. */
  lemma StepLimit(c: Config, s: State, b: byte, limit: u64)
    requires 0 < c.blockSize && c.limit <= limit && StepByte(c, s, b).Ok?
    ensures StepByte(c.(limit := limit), s, b) == StepByte(c, s, b)
  {}

  lemma {:induction false} RunLimit(c: Config, s: State, input: seq<byte>, limit: u64)
    requires 0 < c.blockSize && c.limit <= limit && Run(c, s, input).Ok?
    ensures Run(c.(limit := limit), s, input) == Run(c, s, input)
    decreases |input|
  {
    hide StepByte;
    if input != [] {
      StepLimit(c, s, input[0], limit);
      RunLimit(c, StepByte(c, s, input[0]).value, input[1..], limit);
    }
  }

  /** The file holds `received` as it came, or what `received` means as a delta over the base. */
  ghost predicate Decodes(f: StagedFile, base: Option<Config>, received: seq<byte>) {
    if base.None? then f.Content() == received && (f.writer.Some? ==> f.writer.value.Plain?)
    else
      && base.value.Valid() && base.value.limit == NO_LIMIT
      && Run(base.value, INITIAL, received).Ok?
      && var s := Run(base.value, INITIAL, received).value;
         && (f.writer.Some? ==>
               && f.writer.value.Rsync? && f.writer.value.config.(limit := NO_LIMIT) == base.value
               && f.writer.value.state == s)
         && (f.temporary.Some? ==> s.seen && f.temporary.value == s.output)
  }

  /** The base that a file was staged over, if it is to be rebuilt from a delta. */
  function BaseOf(command: FileTransferCommand, io: StageIo): Option<Config> {
    if command.transmissionType == Some(FileTransmissionType.Rsync) && io.rsyncBase.Some? && io.rsyncBase.value.Valid()
    then Some(io.rsyncBase.value.(limit := NO_LIMIT)) else None
  }

  predicate IsZlib(command: FileTransferCommand) {
    command.compression == Some(Zlib)
  }

  /** Where the file goes, how long it is to be, and how its data comes are what its command and path said. */
  predicate StagedAs(f: StagedFile, command: FileTransferCommand, io: StageIo) {
    && command.fileType in {None, Some(Regular)} && io.destination == Some(f.destination)
    && f.expectedSize == command.size && f.zlib == IsZlib(command)
  }

  /** Data leaves alone what the file was staged as. */
  predicate SameFile(f: StagedFile, g: StagedFile) {
    f.destination == g.destination && f.expectedSize == g.expectedSize && f.zlib == g.zlib
  }

  /** Data was taken by an open file; the last of it closes the file, synced and with its stream at an end. */
  predicate Advances(f: StagedFile, g: StagedFile, completes: bool, io: WriteIo) {
    && SameFile(f, g) && f.temporary.None? && (g.temporary.Some? <==> completes)
    && (completes ==> io.syncOk && (f.zlib ==> io.inflateDone))
  }

  /** A write that went through adds what it was given. */
  lemma WriteDecodes(f: StagedFile, base: Option<Config>, received: seq<byte>, limit: u64, data: seq<byte>,
                     accepted: nat)
    requires f.writer.Some? && f.temporary.None? && f.writer.value.Valid() && Decodes(f, base, received)
    requires WriteThrough(f.writer.value.SetLimit(limit), data, accepted).Wrote?
    ensures var next := WriteThrough(f.writer.value.SetLimit(limit), data, accepted).writer;
            forall g: StagedFile :: g.writer == Some(next) && g.temporary == None ==> Decodes(g, base, received + data)
  {
    var w := f.writer.value.SetLimit(limit);
    if data == [] {
      assert received + data == received;
    } else if base.Some? {
      hide Run, Feed;
      FeedIff(w.config, SinkEnd(w, accepted), SinkError(w, accepted), w.state, data);
      RunLimit(w.config, w.state, data, NO_LIMIT);
      RunSplit(base.value, INITIAL, received, data);
    }
  }

  /** What reaches the writer with one data command. */
  function PayloadOf(zlib: bool, data: seq<byte>, io: WriteIo): seq<byte> {
    if !zlib then data else if io.inflated.Some? then io.inflated.value else []
  }

  lemma WrittenDecodes(l: Limits, s: SendSession, id: Text, writer: StagedWriter, completes: bool, io: WriteIo,
                       base: Option<Config>, received: seq<byte>)
    requires id in s.files
    requires Decodes(s.files[id].(writer := Some(writer), temporary := None), base, received)
    requires s.files[id].temporary.None?
    ensures var t := FileWritten(l, s, id, writer, completes, io).0;
            id in t.files ==>
              Decodes(t.files[id], base, received) && Advances(s.files[id], t.files[id], completes, io)
  {}

  lemma FileDataDecodes(l: Limits, s: SendSession, id: Text, data: seq<byte>, completes: bool, io: WriteIo,
                        base: Option<Config>, received: seq<byte>)
    requires SessionOk(l, s) && id in s.files && (s.files[id].writer.Some? ==> s.files[id].writer.value.Valid())
    requires Decodes(s.files[id], base, received)
    ensures var t := FileData(l, s, id, data, completes, io).0;
            id in t.files ==>
              && Decodes(t.files[id], base, received + PayloadOf(s.files[id].zlib, data, io))
              && Advances(s.files[id], t.files[id], completes, io) && (s.files[id].zlib ==> io.inflated.Some?)
  {
    hide SessionOk, Decodes, WriteThrough, FileWritten, WriteLimit, FailedWrite, Advances;
    CountersOf(l, s);
    var file := s.files[id];
    RejectRemoves(s, id);
    if file.writer.Some? {
      var limit := LimitValue(l, s, file);
      var writer := file.writer.value.SetLimit(limit);
      var payload := Payload(file, data, io);
      FailedIsFailed(writer, io.accepted);
      if payload.Some? && WriteThrough(writer, payload.value, io.accepted).Wrote? {
        WriteDecodes(file, base, received, limit, payload.value, io.accepted);
        var next := WriteThrough(writer, payload.value, io.accepted).writer;
        assert Decodes(file.(writer := Some(next), temporary := None), base, received + payload.value);
        WrittenDecodes(l, s, id, next, completes, io, base, received + payload.value);
      }
    }
  }

  function LimitValue(l: Limits, s: SendSession, file: StagedFile): (limit: u64)
    ensures limit == WriteLimit(l, s, file)
  {
    WriteLimit(l, s, file)
  }

  lemma RejectRemoves(s: SendSession, id: Text)
    ensures forall bytes :: id !in RejectFile(Charge(s, bytes), id).files
    ensures id !in RejectFile(s, id).files
  {}

  /* ---- Over a run ---- */

  /** The payloads of the data commands for `id`, in order. */
  function Received(events: seq<Event>, id: Text, zlib: bool): seq<byte> {
    if events == [] then [] else
      var e := events[|events| - 1];
      Received(events[..|events| - 1], id, zlib)
      + if e.Data? && e.dataId == id then PayloadOf(zlib, e.data, e.writeIo) else []
  }

  /** A file stays the same, takes the data of its own command, or is newly staged. */
  lemma StepFile(l: Limits, s: SendSession, e: Event, id: Text)
    requires SessionOk(l, s) && id in Step(l, s, e).files
    ensures id in s.files && !(e.Data? && e.dataId == id) ==> Step(l, s, e).files[id] == s.files[id]
    ensures id !in s.files ==>
              && e.Stage? && e.id == id
              && Decodes(Step(l, s, e).files[id], BaseOf(e.command, e.stageIo), [])
              && StagedAs(Step(l, s, e).files[id], e.command, e.stageIo) && Step(l, s, e).files[id].temporary.None?
  {
    if e.Stage? {
      StepStages(l, s, e.command, e.id, e.stageIo);
      hide Step, SessionOk, Decodes, StagedAs;
      StageFile(l, s, e.command, e.id, e.stageIo, id);
    } else {
      DataOthers(l, s, e, id);
    }
  }

  lemma StageAcceptedFile(l: Limits, s: SendSession, command: FileTransferCommand, id: Text, io: StageIo,
                          destination: Text, other: Text)
    requires s.reservedBytes <= l.maxSessionBytes && id !in s.files && io.destination == Some(destination)
    requires other in StageAccepted(l, s, command, id, io, destination).0.files
    ensures var f := StageAccepted(l, s, command, id, io, destination).0.files[other];
            if other in s.files then f == s.files[other]
            else id == other && Decodes(f, BaseOf(command, io), []) && StagedAs(f, command, io) && f.temporary.None?
  {}

  lemma StageFile(l: Limits, s: SendSession, command: FileTransferCommand, id: Text, io: StageIo, other: Text)
    requires s.reservedBytes <= l.maxSessionBytes && other in StageEntry(l, s, command, id, io).0.files
    ensures var f := StageEntry(l, s, command, id, io).0.files[other];
            if other in s.files then f == s.files[other]
            else id == other && Decodes(f, BaseOf(command, io), []) && StagedAs(f, command, io) && f.temporary.None?
  {
    hide Decodes, BaseOf, StageAccepted, StageEntry, StagedAs;
    StageCases(l, s, command, id, io);
    if StageEntry(l, s, command, id, io).0.files != s.files {
      StageAcceptedFile(l, s, command, id, io, io.destination.value, other);
    }
  }

  lemma StageCases(l: Limits, s: SendSession, command: FileTransferCommand, id: Text, io: StageIo)
    requires s.reservedBytes <= l.maxSessionBytes
    ensures StageEntry(l, s, command, id, io).0.files != s.files ==>
              && id !in s.files && io.destination.Some?
              && StageEntry(l, s, command, id, io) == StageAccepted(l, s, command, id, io, io.destination.value)
  {}

  lemma LinkDataFiles(l: Limits, s: SendSession, id: Text, data: seq<byte>, completes: bool, utf8: bool)
    requires id in s.links
    ensures LinkData(l, s, id, data, completes, utf8).0.files == s.files
  {}

  lemma FileDataOthers(l: Limits, s: SendSession, id: Text, data: seq<byte>, completes: bool, io: WriteIo, other: Text)
    requires id in s.files && (s.files[id].writer.Some? ==> s.files[id].writer.value.Valid())
    ensures var t := FileData(l, s, id, data, completes, io).0;
            other in t.files ==> other in s.files && (other != id ==> t.files[other] == s.files[other])
  {}

  lemma DataOthers(l: Limits, s: SendSession, e: Event, id: Text)
    requires SessionOk(l, s) && e.Data?
    ensures id in Step(l, s, e).files ==> id in s.files
    ensures id in Step(l, s, e).files && e.dataId != id ==> Step(l, s, e).files[id] == s.files[id]
  {
    hide SessionOk, FileData, LinkData;
    CountersOf(l, s);
    if e.dataId in s.links {
      LinkDataFiles(l, s, e.dataId, e.data, e.completes, e.writeIo.utf8);
    }
    if e.dataId in s.files {
      FileDataOthers(l, s, e.dataId, e.data, e.completes, e.writeIo, id);
    }
  }

  /** The command carries data for this id. */
  predicate IsDataFor(e: Event, id: Text) {
    e.Data? && e.dataId == id
  }

  /**
   * The data commands for `id` ended the file as it should end: all of them could be decoded, only
   * the last one may complete the file, and then it was synced with its stream at an end.
   */
  ghost predicate Ended(events: seq<Event>, id: Text, zlib: bool, complete: bool) {
    && (forall j :: 0 <= j < |events| && IsDataFor(events[j], id) ==>
          && (zlib ==> events[j].writeIo.inflated.Some?)
          && (events[j].completes ==> complete && events[j].writeIo.syncOk && (zlib ==> events[j].writeIo.inflateDone)))
    && (forall i, j :: 0 <= j < i < |events| && IsDataFor(events[j], id) && IsDataFor(events[i], id) ==>
          !events[j].completes)
    && (complete ==> exists j :: 0 <= j < |events| && IsDataFor(events[j], id) && events[j].completes)
  }

  lemma EndedOther(events: seq<Event>, e: Event, id: Text, zlib: bool, complete: bool)
    requires Ended(events, id, zlib, complete) && !IsDataFor(e, id)
    ensures Ended(events + [e], id, zlib, complete)
  {
    var all := events + [e];
    if complete {
      var j :| 0 <= j < |events| && IsDataFor(events[j], id) && events[j].completes;
      assert all[j] == events[j];
    }
  }

  lemma EndedNext(events: seq<Event>, e: Event, id: Text, zlib: bool)
    requires Ended(events, id, zlib, false) && IsDataFor(e, id) && (zlib ==> e.writeIo.inflated.Some?)
    requires e.completes ==> e.writeIo.syncOk && (zlib ==> e.writeIo.inflateDone)
    ensures Ended(events + [e], id, zlib, e.completes)
  {
    var all := events + [e];
    assert all[|events|] == e;
    assert forall j :: 0 <= j < |events| ==> all[j] == events[j];
  }

  /**
   * A live file was staged by one command, as that command and its resolved path say, and holds
   * exactly the data commands for its id since then: as they came if it was staged plain, else what
   * they mean as a delta over its base. It is complete exactly when the last of them completed it.
   */
  lemma {:induction false} FileHoldsItsData(l: Limits, events: seq<Event>, id: Text) returns (staged: nat)
    requires l.Valid() && id in After(l, events).files
    ensures staged < |events| && events[staged].Stage? && events[staged].id == id
    ensures var f, command, io := After(l, events).files[id], events[staged].command, events[staged].stageIo;
            && StagedAs(f, command, io)
            && Decodes(f, BaseOf(command, io), Received(events[staged + 1..], id, IsZlib(command)))
            && Ended(events[staged + 1..], id, IsZlib(command), f.temporary.Some?)
    decreases |events|
  {
    hide After, Step, Decodes, SessionOk, BaseOf, PayloadOf, Received, Ended;
    assert events != [] by { AfterEmpty(l); }
    var initial, e := events[..|events| - 1], events[|events| - 1];
    var s := After(l, initial);
    AfterSnoc(l, initial, e);
    assert initial + [e] == events;
    StepFile(l, s, e, id);
    if id !in s.files {
      staged := |events| - 1;
      assert events[staged + 1..] == [];
      NothingReceived(id, IsZlib(e.command));
    } else {
      staged := FileHoldsItsData(l, initial, id);
      var rest, zlib := initial[staged + 1..], IsZlib(events[staged].command);
      assert events[staged + 1..] == rest + [e];
      ReceivedSnoc(rest, e, id, zlib);
      if IsDataFor(e, id) {
        StepDecodes(l, s, e, id, BaseOf(events[staged].command, events[staged].stageIo), Received(rest, id, zlib));
        EndedNext(rest, e, id, zlib);
      } else {
        EndedOther(rest, e, id, zlib, s.files[id].temporary.Some?);
      }
    }
  }

  lemma NothingReceived(id: Text, zlib: bool)
    ensures Received([], id, zlib) == [] && Ended([], id, zlib, false)
  {}

  lemma ReceivedSnoc(events: seq<Event>, e: Event, id: Text, zlib: bool)
    ensures Received(events + [e], id, zlib)
         == Received(events, id, zlib) + if IsDataFor(e, id) then PayloadOf(zlib, e.data, e.writeIo) else []
    ensures !IsDataFor(e, id) ==> Received(events + [e], id, zlib) == Received(events, id, zlib)
  {
    assert (events + [e])[..|events|] == events;
  }

  lemma AfterEmpty(l: Limits)
    requires l.Valid()
    ensures After(l, []).files == map[]
  {}

  lemma StepDecodes(l: Limits, s: SendSession, e: Event, id: Text, base: Option<Config>, received: seq<byte>)
    requires SessionOk(l, s) && e.Data? && e.dataId == id && id in s.files && Decodes(s.files[id], base, received)
    ensures id in Step(l, s, e).files ==>
              && Decodes(Step(l, s, e).files[id], base, received + PayloadOf(s.files[id].zlib, e.data, e.writeIo))
              && Advances(s.files[id], Step(l, s, e).files[id], e.completes, e.writeIo)
              && (s.files[id].zlib ==> e.writeIo.inflated.Some?)
  {
    FileIsOneEntry(l, s, id);
    hide SessionOk, FileData, LinkData, Decodes, Advances;
    CountersOf(l, s);
    FileDataDecodes(l, s, id, e.data, e.completes, e.writeIo, base, received);
  }

  lemma FileIsOneEntry(l: Limits, s: SendSession, id: Text)
    requires SessionOk(l, s) && id in s.files
    ensures id !in s.rejected && id !in s.directories && id !in s.links
  {}

  /** A completed file staged over a base is exactly what its data means as a delta, checksum and all. */
  lemma CompletedDelta(f: StagedFile, base: Config, received: seq<byte>) returns (ops: seq<Op>)
    requires Decodes(f, Some(base), received) && f.temporary.Some?
    ensures IsDelta(base, ops, received) && f.temporary.value == Meaning(base, ops)
  {
    hide Run;
    ops := AcceptedIsDelta(base, received, Run(base, INITIAL, received).value);
  }
}
