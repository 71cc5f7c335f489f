/** The counters of a send session, over every sequence of commands. */
module SendBudget {
  import opened Bytes
  import opened ByteStreams
  import opened DeltaPatcher
  import opened StagedDeltas
  import opened TransferCommands
  import opened MapSums
  import opened SendSessions

  lemma EmptyOk(l: Limits)
    requires l.Valid()
    ensures SessionOk(l, EMPTY_SESSION)
  {}

  /* ---- Writers ---- */

  /** No write, through or failed, shrinks a file or takes it past its limit. */
  lemma WriteBounded(w: StagedWriter, data: seq<byte>, accepted: nat)
    requires w.Valid()
    ensures match WriteThrough(w, data, accepted)
            case Wrote(next) => next.Valid() && |w.Written()| <= |next.Written()| <= |w.Written()| + WriterRoom(w)
            case Failed(written, _) => |w.Written()| <= written <= |w.Written()| + WriterRoom(w)
  {
    hide Run, Feed, DeltaInputLimit;
    if w.Rsync? {
      FeedBounded(w, data, accepted);
    }
  }

  lemma FeedBounded(w: StagedWriter, data: seq<byte>, accepted: nat)
    requires w.Valid() && w.Rsync?
    ensures var r := Feed(w.config, SinkEnd(w, accepted), SinkError(w, accepted), w.state, data);
            var end := if r.Fed? then |r.state.output| else r.written;
            |w.Written()| <= end && (end <= w.config.limit || end == |w.Written()|)
  {
    hide Run, Feed, SinkEnd, SinkError;
    var sink, error := SinkEnd(w, accepted), SinkError(w, accepted);
    FeedIff(w.config, sink, error, w.state, data);
    if Feed(w.config, sink, error, w.state, data).Fed? {
      RunBounded(w.config, w.state, data);
    } else {
      StuckBounded(w.config, sink, error, w.state, data);
    }
  }

  /* ---- The sums under an update ---- */

  lemma FileUpdate(files: map<Text, StagedFile>, id: Text, f: StagedFile)
    ensures Total(Reservations(files[id := f])) + (if id in files then files[id].reservation else 0)
         == Total(Reservations(files)) + f.reservation
    ensures Total(Writings(files[id := f])) + (if id in files then files[id].bytesWritten else 0)
         == Total(Writings(files)) + f.bytesWritten
  {
    assert Reservations(files[id := f]) == Reservations(files)[id := f.reservation];
    assert Writings(files[id := f]) == Writings(files)[id := f.bytesWritten];
    TotalUpdate(Reservations(files), id, f.reservation);
    TotalUpdate(Writings(files), id, f.bytesWritten);
  }

  lemma FileRemove(files: map<Text, StagedFile>, id: Text)
    requires id in files
    ensures Total(Reservations(files - {id})) + files[id].reservation == Total(Reservations(files))
    ensures Total(Writings(files - {id})) + files[id].bytesWritten == Total(Writings(files))
  {
    assert Reservations(files - {id}) == Reservations(files) - {id};
    assert Writings(files - {id}) == Writings(files) - {id};
    TotalRemove(Reservations(files), id);
    TotalRemove(Writings(files), id);
  }

  lemma LinkUpdate(links: map<Text, StagedLink>, id: Text, k: StagedLink)
    ensures Total(LinkSizes(links[id := k])) + (if id in links then |links[id].data| else 0)
         == Total(LinkSizes(links)) + |k.data|
  {
    assert LinkSizes(links[id := k]) == LinkSizes(links)[id := |k.data|];
    TotalUpdate(LinkSizes(links), id, |k.data|);
  }

  lemma LinkRemove(links: map<Text, StagedLink>, id: Text)
    requires id in links
    ensures Total(LinkSizes(links - {id})) + |links[id].data| == Total(LinkSizes(links))
  {
    assert LinkSizes(links - {id}) == LinkSizes(links) - {id};
    TotalRemove(LinkSizes(links), id);
  }

  /** Written bytes are within reservations, in total and file by file, so no subtraction saturates. */
  lemma PlannedIsExact(l: Limits, s: SendSession)
    requires SessionOk(l, s)
    ensures Total(Writings(s.files)) <= s.reservedBytes <= l.maxSessionBytes
    ensures PlannedUnwritten(s) == s.reservedBytes - Total(Writings(s.files))
    ensures forall id :: id in s.files ==> s.files[id].reservation - s.files[id].bytesWritten <= PlannedUnwritten(s)
  {
    var written, reserved := Writings(s.files), Reservations(s.files);
    assert forall id :: id in s.files ==> FileOk(l, s.files[id]);
    TotalDifference(written, reserved);
    forall id | id in s.files
      ensures s.files[id].reservation - s.files[id].bytesWritten <= PlannedUnwritten(s)
    {
      assert id in written && reserved[id] - written[id] <= Total(reserved) - Total(written);
    }
  }

  /* ---- Entries ---- */

  lemma RejectFileEntries(l: Limits, s: SendSession, id: Text)
    requires EntriesOk(l, s) && id in s.files
    ensures EntriesOk(l, RejectFile(s, id))
  {
    hide FileOk, LinkOk, CountOk;
    RejectFileCount(l, s, id);
  }

  lemma RejectFileCount(l: Limits, s: SendSession, id: Text)
    requires Disjoint(s) && CountOk(l, s) && id in s.files
    ensures CountOk(l, RejectFile(s, id))
  {}

  lemma RejectLinkEntries(l: Limits, s: SendSession, id: Text)
    requires EntriesOk(l, s) && id in s.links
    ensures EntriesOk(l, RejectLink(s, id))
  {
    hide FileOk, LinkOk, CountOk;
    RejectLinkCount(l, s, id);
  }

  lemma RejectLinkCount(l: Limits, s: SendSession, id: Text)
    requires Disjoint(s) && CountOk(l, s) && id in s.links
    ensures CountOk(l, RejectLink(s, id))
  {}

  /** The id may be added as an entry. */
  predicate Vacant(l: Limits, s: SendSession, id: Text) {
    !s.ContainsEntry(id) && id !in s.rejected && s.EntryCount() + |s.rejected| < l.maxFiles
  }

  lemma PutFileEntries(l: Limits, s: SendSession, id: Text, f: StagedFile)
    requires EntriesOk(l, s) && FileOk(l, f)
    requires id in s.files || Vacant(l, s, id)
    ensures EntriesOk(l, s.(files := s.files[id := f]))
  {
    hide FileOk, LinkOk, CountOk;
    PutFileCount(l, s, id, f);
  }

  lemma PutFileCount(l: Limits, s: SendSession, id: Text, f: StagedFile)
    requires CountOk(l, s) && (id in s.files || Vacant(l, s, id))
    ensures CountOk(l, s.(files := s.files[id := f]))
  {}

  lemma PutLinkEntries(l: Limits, s: SendSession, id: Text, k: StagedLink)
    requires EntriesOk(l, s) && LinkOk(k)
    requires id in s.links || Vacant(l, s, id)
    ensures EntriesOk(l, s.(links := s.links[id := k]))
  {}

  lemma PutDirectoryEntries(l: Limits, s: SendSession, id: Text, destination: Text)
    requires EntriesOk(l, s) && Vacant(l, s, id)
    ensures EntriesOk(l, s.(directories := s.directories[id := destination]))
  {}

  /* ---- Every operation keeps the budget ---- */

  lemma RejectEntryOk(l: Limits, s: SendSession, id: Text)
    requires SessionOk(l, s) && Vacant(l, s, id)
    ensures SessionOk(l, RejectEntry(s, id))
  {}

  lemma RejectFileOk(l: Limits, s: SendSession, id: Text)
    requires SessionOk(l, s) && id in s.files
    ensures SessionOk(l, RejectFile(s, id))
  {
    hide EntriesOk;
    RejectFileEntries(l, s, id);
    FileRemove(s.files, id);
  }

  lemma RejectLinkOk(l: Limits, s: SendSession, id: Text)
    requires SessionOk(l, s) && id in s.links
    ensures SessionOk(l, RejectLink(s, id))
  {
    hide EntriesOk;
    RejectLinkEntries(l, s, id);
    LinkRemove(s.links, id);
  }

  /** Charging bytes that no live entry holds is fine once something is rejected with them. */
  lemma RejectFileChargedOk(l: Limits, s: SendSession, id: Text, bytes: nat)
    requires SessionOk(l, s) && id in s.files
    ensures SessionOk(l, RejectFile(Charge(s, bytes), id))
  {
    hide EntriesOk;
    RejectFileEntries(l, s, id);
    EntriesIgnoreCounters(l, RejectFile(s, id), RejectFile(Charge(s, bytes), id));
    FileRemove(s.files, id);
  }

  lemma RejectLinkChargedOk(l: Limits, s: SendSession, id: Text, bytes: nat)
    requires SessionOk(l, s) && id in s.links
    ensures SessionOk(l, RejectLink(Charge(s, bytes), id))
  {
    hide EntriesOk;
    RejectLinkEntries(l, s, id);
    EntriesIgnoreCounters(l, RejectLink(s, id), RejectLink(Charge(s, bytes), id));
    LinkRemove(s.links, id);
  }

  lemma EntriesIgnoreCounters(l: Limits, s: SendSession, t: SendSession)
    requires EntriesOk(l, s)
    requires t == s.(reservedBytes := t.reservedBytes, consumedBytes := t.consumedBytes)
    ensures EntriesOk(l, t)
  {}

  lemma NewFileOk(l: Limits, command: FileTransferCommand, io: StageIo, destination: Text, reserved: nat)
    requires l.Valid() && FileTypeOf(command) == Regular && reserved <= l.maxSessionBytes
    requires ReservationOf(command) <= l.maxFileBytes
    ensures var f := StagedFile(destination, command.size,
                                Some(NewWriter(command, io, OutputLimit(l, command, reserved))),
                                None, 0, ReservationOf(command), Compressed(command));
            FileOk(l, f)
  {}

  lemma NewLinkOk(fileType: FileTransferType, destination: Text)
    requires fileType in {Symlink, Link}
    ensures LinkOk(StagedLink(fileType, destination, [], false))
  {}

  lemma PutNewFileOk(l: Limits, s: SendSession, id: Text, f: StagedFile)
    requires SessionOk(l, s) && Vacant(l, s, id) && FileOk(l, f) && f.bytesWritten == 0
    requires s.reservedBytes + f.reservation <= l.maxSessionBytes
    ensures SessionOk(l, s.(files := s.files[id := f], reservedBytes := s.reservedBytes + f.reservation))
  {
    hide EntriesOk, FileOk, Total;
    PutFileEntries(l, s, id, f);
    FileUpdate(s.files, id, f);
    EntriesIgnoreCounters(l, s.(files := s.files[id := f]),
                          s.(files := s.files[id := f], reservedBytes := s.reservedBytes + f.reservation));
  }

  lemma PutNewLinkOk(l: Limits, s: SendSession, id: Text, k: StagedLink)
    requires SessionOk(l, s) && Vacant(l, s, id) && LinkOk(k) && k.data == []
    ensures SessionOk(l, s.(links := s.links[id := k]))
  {
    hide EntriesOk, LinkOk, Total;
    PutLinkEntries(l, s, id, k);
    LinkUpdate(s.links, id, k);
  }

  lemma PutDirectoryOk(l: Limits, s: SendSession, id: Text, destination: Text)
    requires SessionOk(l, s) && Vacant(l, s, id)
    ensures SessionOk(l, s.(directories := s.directories[id := destination]))
  {
    hide EntriesOk, Total;
    PutDirectoryEntries(l, s, id, destination);
  }

  /** What the budget check lets through fits the reservations, too. */
  lemma BudgetCoversReservation(l: Limits, s: SendSession, reservation: nat)
    requires SessionOk(l, s) && FitsBudget(l, s.consumedBytes, PlannedUnwritten(s), reservation)
    ensures s.reservedBytes + reservation <= l.maxSessionBytes && reservation <= l.maxFileBytes
  {}

  lemma StageAcceptedOk(l: Limits, s: SendSession, command: FileTransferCommand, id: Text, io: StageIo,
                        destination: Text)
    requires SessionOk(l, s) && Vacant(l, s, id)
    requires FitsBudget(l, s.consumedBytes, PlannedUnwritten(s), ReservationOf(command))
    ensures SessionOk(l, StageAccepted(l, s, command, id, io, destination).0)
  {
    hide SessionOk, FileOk, LinkOk, NewWriter, OutputLimit, PlannedUnwritten, FitsBudget, Vacant, ReservationOf;
    CountersOf(l, s);
    RejectEntryOk(l, s, id);
    var fileType := FileTypeOf(command);
    if fileType == Directory {
      PutDirectoryOk(l, s, id, destination);
    } else if fileType == Symlink || fileType == Link {
      NewLinkOk(fileType, destination);
      PutNewLinkOk(l, s, id, StagedLink(fileType, destination, [], false));
    } else {
      var f := StagedFile(destination, command.size,
                          Some(NewWriter(command, io, OutputLimit(l, command, s.reservedBytes))),
                          None, 0, ReservationOf(command), Compressed(command));
      BudgetCoversReservation(l, s, ReservationOf(command));
      NewFileOk(l, command, io, destination, s.reservedBytes);
      PutNewFileOk(l, s, id, f);
    }
  }

  lemma StageOk(l: Limits, s: SendSession, command: FileTransferCommand, id: Text, io: StageIo)
    requires SessionOk(l, s)
    ensures SessionOk(l, StageEntry(l, s, command, id, io).0)
  {
    hide SessionOk, StageAccepted, FitsBudget, PlannedUnwritten;
    CountersOf(l, s);
    if Vacant(l, s, id) {
      RejectEntryOk(l, s, id);
      if FitsBudget(l, s.consumedBytes, PlannedUnwritten(s), ReservationOf(command)) && io.destination.Some? {
        StageAcceptedOk(l, s, command, id, io, io.destination.value);
      }
    }
  }

  lemma CountersOf(l: Limits, s: SendSession)
    requires SessionOk(l, s)
    ensures l.Valid() && s.reservedBytes <= l.maxSessionBytes && s.consumedBytes < U64_LIMIT
    ensures forall id :: id in s.files ==> FileOk(l, s.files[id])
  {}

  lemma LinkGrownOk(k: StagedLink, data: seq<byte>, completes: bool, utf8: bool)
    requires LinkOk(k) && (completes ==> ParseLinkTarget(data, utf8).Some?)
    ensures LinkOk(k.(data := data, complete := completes))
  {}

  lemma LinkStoredOk(l: Limits, s: SendSession, id: Text, k: StagedLink, added: nat)
    requires SessionOk(l, s) && id in s.links && LinkOk(k) && |k.data| == |s.links[id].data| + added
    requires added <= SaturatingSub(l.maxSessionBytes, s.consumedBytes)
    ensures SessionOk(l, s.(consumedBytes := s.consumedBytes + added, links := s.links[id := k]))
  {
    hide EntriesOk, LinkOk, Total;
    PutLinkEntries(l, s, id, k);
    LinkUpdate(s.links, id, k);
    EntriesIgnoreCounters(l, s.(links := s.links[id := k]),
                          s.(consumedBytes := s.consumedBytes + added, links := s.links[id := k]));
  }

  /** Charging the exact bytes of a link that is then rejected is a charge like any other. */
  lemma ChargeIsExact(l: Limits, s: SendSession, added: nat)
    requires SessionOk(l, s) && added <= SaturatingSub(l.maxSessionBytes, s.consumedBytes)
    ensures Charge(s, added) == s.(consumedBytes := s.consumedBytes + added)
  {}

  lemma LinkDataOk(l: Limits, s: SendSession, id: Text, data: seq<byte>, completes: bool, utf8: bool)
    requires SessionOk(l, s) && id in s.links
    ensures SessionOk(l, LinkData(l, s, id, data, completes, utf8).0)
  {
    hide SessionOk, LinkOk, ParseLinkTarget, Charge, RejectLink;
    var link := s.links[id];
    LinksOf(l, s);
    RejectLinkOk(l, s, id);
    RejectLinkChargedOk(l, s, id, |data|);
    if LinkDataFits(l, s, link, data) {
      var all := link.data + data;
      ChargeIsExact(l, s, |data|);
      if !completes || ParseLinkTarget(all, utf8).Some? {
        LinkGrownOk(link, all, completes, utf8);
        LinkStoredOk(l, s, id, link.(data := all, complete := completes), |data|);
      }
    }
  }

  lemma LinksOf(l: Limits, s: SendSession)
    requires SessionOk(l, s)
    ensures forall id :: id in s.links ==> LinkOk(s.links[id])
  {}

  /* ---- File data ---- */

  /** A write that was let through: within the declared size, the file limit and what the session can consume. */
  predicate Admitted(l: Limits, s: SendSession, file: StagedFile, writer: StagedWriter) {
    && writer.Valid() && file.bytesWritten <= |writer.Written()|
    && (|writer.Written()| == file.bytesWritten
        || (|writer.Written()| <= l.maxFileBytes
            && (file.expectedSize.Some? ==> |writer.Written()| <= file.expectedSize.value)
            && s.consumedBytes + (|writer.Written()| - file.bytesWritten) <= l.maxSessionBytes))
  }

  lemma WriteAdmitted(l: Limits, s: SendSession, file: StagedFile, data: seq<byte>, accepted: nat)
    requires l.Valid() && FileOk(l, file) && file.writer.Some?
    ensures var writer := file.writer.value.SetLimit(WriteLimit(l, s, file));
            WriteThrough(writer, data, accepted).Wrote? ==>
              Admitted(l, s, file, WriteThrough(writer, data, accepted).writer)
  {
    var writer := file.writer.value.SetLimit(WriteLimit(l, s, file));
    WriteBounded(writer, data, accepted);
    hide WriteThrough, Run;
  }

  /** The file after an admitted write, before it is closed. */
  function Grown(file: StagedFile, writer: StagedWriter): StagedFile {
    file.(reservation := file.reservation + SaturatingSub(|writer.Written()|, file.reservation),
          bytesWritten := |writer.Written()|, writer := Some(writer))
  }

  lemma GrownOk(l: Limits, s: SendSession, file: StagedFile, writer: StagedWriter)
    requires l.Valid() && FileOk(l, file) && file.writer.Some? && Admitted(l, s, file, writer)
    ensures FileOk(l, Grown(file, writer))
    ensures file.expectedSize.Some? ==> Grown(file, writer).reservation == file.reservation
  {}

  lemma ClosedOk(l: Limits, file: StagedFile, content: Option<seq<byte>>)
    requires FileOk(l, file) && file.writer.Some? && content == CloseWriter(file.writer.value) && content.Some?
    requires file.expectedSize.Some? ==> file.expectedSize.value == file.bytesWritten
    ensures FileOk(l, file.(writer := None, temporary := content))
  {}

  lemma FileStoredOk(l: Limits, s: SendSession, id: Text, f: StagedFile)
    requires SessionOk(l, s) && id in s.files && FileOk(l, f)
    requires s.files[id].bytesWritten <= f.bytesWritten && s.files[id].reservation <= f.reservation
    requires f.bytesWritten == s.files[id].bytesWritten
          || s.consumedBytes + (f.bytesWritten - s.files[id].bytesWritten) <= l.maxSessionBytes
    requires s.reservedBytes + (f.reservation - s.files[id].reservation) <= l.maxSessionBytes
    ensures SessionOk(l, s.(files := s.files[id := f],
                            reservedBytes := s.reservedBytes + (f.reservation - s.files[id].reservation),
                            consumedBytes := s.consumedBytes + (f.bytesWritten - s.files[id].bytesWritten)))
  {
    hide EntriesOk, FileOk, Total;
    PutFileEntries(l, s, id, f);
    FileUpdate(s.files, id, f);
    EntriesIgnoreCounters(l, s.(files := s.files[id := f]),
                          s.(files := s.files[id := f],
                             reservedBytes := s.reservedBytes + (f.reservation - s.files[id].reservation),
                             consumedBytes := s.consumedBytes + (f.bytesWritten - s.files[id].bytesWritten)));
  }

  lemma FileWrittenOk(l: Limits, s: SendSession, id: Text, writer: StagedWriter, completes: bool, io: WriteIo)
    requires SessionOk(l, s) && id in s.files && s.files[id].writer.Some? && Admitted(l, s, s.files[id], writer)
    ensures SessionOk(l, FileWritten(l, s, id, writer, completes, io).0)
  {
    hide SessionOk, FileOk, RejectFile, CloseWriter;
    var file := s.files[id];
    CountersOf(l, s);
    GrownOk(l, s, file, writer);
    var grown := Grown(file, writer);
    RejectFileChargedOk(l, s, id, |writer.Written()| - file.bytesWritten);
    if s.reservedBytes + (grown.reservation - file.reservation) <= l.maxSessionBytes {
      FileStoredOk(l, s, id, grown);
      var stored := s.(files := s.files[id := grown],
                       reservedBytes := s.reservedBytes + (grown.reservation - file.reservation),
                       consumedBytes := s.consumedBytes + (grown.bytesWritten - file.bytesWritten));
      RejectFileOk(l, stored, id);
      var content := CloseWriter(writer);
      if content.Some? && (file.expectedSize.Some? ==> file.expectedSize.value == grown.bytesWritten) {
        ClosedOk(l, grown, content);
        var closed := grown.(writer := None, temporary := content);
        FileStoredOk(l, stored, id, closed);
        assert stored.files[id := closed] == s.files[id := closed];
      }
    }
  }

  lemma FileDataOk(l: Limits, s: SendSession, id: Text, data: seq<byte>, completes: bool, io: WriteIo)
    requires SessionOk(l, s) && id in s.files && (s.files[id].writer.Some? ==> s.files[id].writer.value.Valid())
    ensures SessionOk(l, FileData(l, s, id, data, completes, io).0)
  {
    hide SessionOk, FileOk, RejectFile, WriteThrough, FileWritten, Admitted, FailedWrite;
    var file := s.files[id];
    CountersOf(l, s);
    RejectFileOk(l, s, id);
    if file.writer.Some? {
      var writer := file.writer.value.SetLimit(WriteLimit(l, s, file));
      var payload := Payload(file, data, io);
      if payload.Some? {
        WriteAdmitted(l, s, file, payload.value, io.accepted);
      }
      var result := if payload.None? then FailedWrite(writer, io.accepted, BadStream)
                    else WriteThrough(writer, payload.value, io.accepted);
      if result.Wrote? {
        FailedIsFailed(writer, io.accepted);
        FileWrittenOk(l, s, id, result.writer, completes, io);
      } else {
        RejectFileChargedOk(l, s, id, SaturatingSub(result.written, file.bytesWritten));
      }
    }
  }

  lemma FailedIsFailed(w: StagedWriter, accepted: nat)
    ensures forall error :: FailedWrite(w, accepted, error).Failed?
  {}

  /** A data command of any kind keeps the session's budget. */
  lemma DataOk(l: Limits, s: SendSession, id: Text, data: seq<byte>, completes: bool, io: WriteIo)
    requires SessionOk(l, s)
    ensures id in s.files ==> (s.files[id].writer.Some? ==> s.files[id].writer.value.Valid())
    ensures SessionOk(l, EntryData(l, s, id, data, completes, io).0)
  {
    hide SessionOk, FileData, LinkData;
    CountersOf(l, s);
    if id in s.links {
      LinkDataOk(l, s, id, data, completes, io.utf8);
    }
    if id in s.files {
      FileDataOk(l, s, id, data, completes, io);
    }
  }
}
