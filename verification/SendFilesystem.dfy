/** The executor of approved send sessions: its session table, and publication at Finish. */
module SendFilesystem {
  import opened Bytes
  import opened TransferCommands
  import opened MapSums
  import opened StagedDeltas
  import opened SendSessions
  import opened SendBudget
  import opened SendPublication

  /* ---- The executor object ---- */

  class TtyTransferSendFilesystem {
    const limits: Limits
    var sessions: map<Text, SendSession>
    var disk: Disk

    ghost predicate Valid()
      reads this
    {
      limits.Valid() && forall id :: id in sessions ==> SessionOk(limits, sessions[id])
    }

    constructor (limits: Limits, disk: Disk)
      requires limits.Valid()
      ensures Valid() && this.limits == limits && sessions == map[] && this.disk == disk
    {
      this.limits := limits;
      sessions := map[];
      this.disk := disk;
    }

    /** Reserved bytes not yet written, by summing over the live files in the map's own order. */
    method PlannedUnwrittenBytes(s: SendSession) returns (planned: nat)
      ensures planned == PlannedUnwritten(s)
    {
      hide Total;
      var liveWritten := 0;
      var left := s.files.Keys;
      ghost var rest := Writings(s.files);
      while left != {}
        invariant left <= s.files.Keys && rest.Keys == left
        invariant forall id :: id in left ==> rest[id] == s.files[id].bytesWritten
        invariant liveWritten + Total(rest) == Total(Writings(s.files))
        decreases left
      {
        var id :| id in left;
        TotalRemove(rest, id);
        assert (rest - {id}).Keys == rest.Keys - {id};
        rest := rest - {id};
        liveWritten := liveWritten + s.files[id].bytesWritten;
        left := left - {id};
      }
      assert rest == map[];
      TotalEmpty<Text>();
      planned := SaturatingSub(s.reservedBytes, liveWritten);
    }

    /** The session for an id, created empty by its first command. */
    function SessionFor(id: Text): SendSession
      reads this
    {
      if id in sessions then sessions[id] else EMPTY_SESSION
    }

    method StageFile(command: FileTransferCommand, io: StageIo) returns (reply: Reply)
      requires Valid() && command.fileId.Some?
      modifies this`sessions
      ensures Valid()
      ensures old(SessionFor(command.id)).reservedBytes <= limits.maxSessionBytes
      ensures var outcome := StageEntry(limits, old(SessionFor(command.id)), command, command.fileId.value, io);
              sessions == old(sessions)[command.id := outcome.0] && reply == outcome.1
    {
      hide SessionOk, PlannedUnwritten, StageAccepted, FitsBudget, RejectEntry, FileTypeOf, WantsRsync, Compressed;
      hide ReservationOf;
      var fileId := command.fileId.value;
      var session := SessionFor(command.id);
      EmptyOk(limits);
      StageOk(limits, session, command, fileId, io);
      CountersOf(limits, session);
      sessions := sessions[command.id := session];
      if session.ContainsEntry(fileId) || fileId in session.rejected {
        return Reply(DuplicateFileId, true, None);
      }
      if session.EntryCount() + |session.rejected| >= limits.maxFiles {
        return Reply(TooManyFiles, true, None);
      }
      var planned := PlannedUnwrittenBytes(session);
      if WantsRsync(command) && FileTypeOf(command) != Regular {
        reply := Reply(RsyncNotRegular, true, None);
      } else if FileTypeOf(command) != Regular && Compressed(command) {
        reply := Reply(CompressionNotRegular, true, None);
      } else if !FitsBudget(limits, session.consumedBytes, planned, ReservationOf(command)) {
        reply := Reply(SizeLimits, true, None);
      } else if io.destination.None? {
        reply := Reply(BadDestination, true, None);
      } else {
        var outcome := StageAccepted(limits, session, command, fileId, io, io.destination.value);
        sessions := sessions[command.id := outcome.0];
        return outcome.1;
      }
      sessions := sessions[command.id := RejectEntry(session, fileId)];
    }

    /** Link data is collected up to the path limit, then parsed. */
    method WriteLinkData(s: SendSession, id: Text, data: seq<byte>, completes: bool, utf8: bool)
      returns (session: SendSession, reply: Reply)
      requires id in s.links
      ensures (session, reply) == LinkData(limits, s, id, data, completes, utf8)
    {
      hide ParseLinkTarget;
      session := s;
      var link := session.links[id];
      if link.complete {
        session := RejectLink(session, id);
        return session, Reply(LinkAlreadyComplete, true, None);
      }
      var newLength := |link.data| + |data|;
      var remaining := SaturatingSub(limits.maxSessionBytes, session.consumedBytes);
      if newLength > MAX_FILE_TRANSFER_PATH_BYTES || newLength > limits.maxFileBytes || |data| > remaining {
        session := Charge(session, |data|);
        session := RejectLink(session, id);
        return session, Reply(LinkTooLarge, true, None);
      }
      link := link.(data := link.data + data);
      session := session.(consumedBytes := session.consumedBytes + |data|);
      if completes {
        if ParseLinkTarget(link.data, utf8).None? {
          session := RejectLink(session, id);
          return session, Reply(InvalidLinkTarget, true, None);
        }
        link := link.(complete := true);
        session := session.(links := session.links[id := link]);
        return session, Reply(Completed, false, Some(|link.data|));
      }
      session := session.(links := session.links[id := link]);
      return session, Reply(Progress, false, Some(|link.data|));
    }

    /** Tighten the writer, write, charge, extend the reservation, and close on the last data. */
    method WriteStagedFile(s: SendSession, id: Text, data: seq<byte>, completes: bool, io: WriteIo)
      returns (session: SendSession, reply: Reply)
      requires SessionOk(limits, s) && id in s.files && (s.files[id].writer.Some? ==> s.files[id].writer.value.Valid())
      ensures (session, reply) == FileData(limits, s, id, data, completes, io)
    {
      hide SessionOk, WriteThrough, FailedWrite, RejectFile, FileWritten;
      session := s;
      var file := session.files[id];
      if file.writer.None? {
        session := RejectFile(session, id);
        return session, Reply(FileAlreadyComplete, true, None);
      }
      var remaining := SaturatingSub(limits.maxSessionBytes, session.consumedBytes);
      var declared := if file.expectedSize.Some? then file.expectedSize.value else limits.maxFileBytes;
      var outputLimit := Min(Min(declared, limits.maxFileBytes), Min(file.bytesWritten + remaining, U64_LIMIT - 1));
      var writer := file.writer.value.SetLimit(outputLimit);
      var payload := Payload(file, data, io);
      var result := if payload.None? then FailedWrite(writer, io.accepted, BadStream)
                    else WriteThrough(writer, payload.value, io.accepted);
      if result.Failed? {
        session := Charge(session, SaturatingSub(result.written, file.bytesWritten));
        session := RejectFile(session, id);
        return session, Reply(WriteStatus(result.error), true, None);
      }
      session, reply := AfterWrite(session, id, result.writer, completes, io);
    }

    method AfterWrite(s: SendSession, id: Text, writer: StagedWriter, completes: bool, io: WriteIo)
      returns (session: SendSession, reply: Reply)
      requires id in s.files
      ensures (session, reply) == FileWritten(limits, s, id, writer, completes, io)
    {
      hide CloseWriter, RejectFile, Charge;
      session := s;
      var file := session.files[id];
      var bytesWritten := |writer.Written()|;
      session := Charge(session, SaturatingSub(bytesWritten, file.bytesWritten));
      ChargeKeeps(s, SaturatingSub(bytesWritten, file.bytesWritten));
      var additional := SaturatingSub(bytesWritten, file.reservation);
      if session.reservedBytes + additional > limits.maxSessionBytes {
        session := RejectFile(session, id);
        return session, Reply(SizeLimits, true, None);
      }
      file := file.(reservation := file.reservation + additional, bytesWritten := bytesWritten, writer := Some(writer));
      session := session.(files := session.files[id := file], reservedBytes := session.reservedBytes + additional);
      if !completes {
        return session, Reply(Progress, false, Some(bytesWritten));
      }
      var content := CloseWriter(writer);
      if content.None? || (file.zlib && !io.inflateDone) {
        session := RejectFile(session, id);
        return session, Reply(InvalidStream, true, None);
      }
      if file.expectedSize.Some? && file.expectedSize.value != bytesWritten {
        session := RejectFile(session, id);
        return session, Reply(WrongSize, true, None);
      }
      if !io.syncOk {
        session := RejectFile(session, id);
        return session, Reply(FileNotSynchronized, true, None);
      }
      session := session.(files := s.files[id := file.(writer := None, temporary := content)]);
      return session, Reply(Completed, false, Some(bytesWritten));
    }

    method WriteFileData(command: FileTransferCommand, completes: bool, io: WriteIo) returns (reply: Option<Reply>)
      requires Valid() && command.fileId.Some?
      modifies this`sessions
      ensures Valid()
      ensures command.id !in old(sessions) ==> sessions == old(sessions) && reply == None
      ensures command.id in old(sessions) ==>
                var s, id := old(sessions)[command.id], command.fileId.value;
                (id in s.files ==> (s.files[id].writer.Some? ==> s.files[id].writer.value.Valid()))
                && sessions == old(sessions)[command.id := EntryData(limits, s, id, command.data, completes, io).0]
                && reply == EntryData(limits, s, id, command.data, completes, io).1
    {
      hide SessionOk, LinkData, FileData;
      if command.id !in sessions {
        return None;
      }
      var id := command.fileId.value;
      var session := sessions[command.id];
      DataOk(limits, session, id, command.data, completes, io);
      assert sessions == sessions[command.id := session];
      if id in session.rejected {
        return None;
      }
      if id in session.directories {
        return Some(Reply(DataForDirectory, true, None));
      }
      var answer;
      if id in session.links {
        session, answer := WriteLinkData(session, id, command.data, completes, io.utf8);
      } else if id in session.files {
        session, answer := WriteStagedFile(session, id, command.data, completes, io);
      } else {
        return None;
      }
      sessions := sessions[command.id := session];
      return Some(answer);
    }

    /** Rename every staged file over its destination, in the order of the ids. */
    method PublishFiles(s: SendSession, io: CommitIo) returns (ok: bool, ghost done: seq<Publication>)
      modifies this`disk
      ensures InOrder(s, done) && disk == Apply(s, io, done, old(disk))
      ensures forall k :: 0 <= k < |done| ==> done[k].PublishFile?
      ensures ok <==> forall id :: id in s.files ==> io.publishFile(id) == Done
      ensures ok ==> forall id :: id in s.files ==> PublishFile(id) in done
    {
      hide FileEntry, LinkEntry, Apply, InOrder, AllBelong, IsLeast;
      var left := s.files.Keys;
      done := [];
      NothingPublished(s, io, disk);
      while left != {}
        invariant left <= s.files.Keys && AllBelong(s, done) && InOrder(s, done)
        invariant disk == Apply(s, io, done, old(disk))
        invariant forall k :: 0 <= k < |done| ==> done[k].PublishFile?
        invariant forall id :: id in s.files ==> (PublishFile(id) in done <==> id !in left)
        invariant forall id :: id in s.files.Keys - left ==> io.publishFile(id) == Done
        decreases left
      {
        LeastExists(left);
        var id :| IsLeast(left, id);
        LeastIn(left, id);
        if io.publishFile(id) == NotDone {
          return false, done;
        }
        LeastIsNext(s, left, id, done);
        PublishNext(s, io, done, PublishFile(id), old(disk));
        disk := disk[s.files[id].destination := FileEntry(s, id)];
        done := done + [PublishFile(id)];
        if io.publishFile(id) == DoneThenFailed {
          return false, done;
        }
        left := left - {id};
      }
      return true, done;
    }

    /** Links follow once every file is in place, hard links first. */
    method PublishLinks(s: SendSession, io: CommitIo, ghost files: seq<Publication>, ghost before: Disk)
      returns (ok: bool, ghost done: seq<Publication>)
      requires InOrder(s, files) && disk == Apply(s, io, files, before)
      requires forall k :: 0 <= k < |files| ==> files[k].PublishFile?
      requires forall id :: id in s.files ==> PublishFile(id) in files
      modifies this`disk
      ensures InOrder(s, done) && disk == Apply(s, io, done, before)
      ensures ok <==> forall id :: id in s.links ==> io.publishLink(id) == Done
      ensures ok ==> AllDone(s, done)
    {
      hide FileEntry, LinkEntry, Apply, InOrder, AllBelong;
      var left := s.links.Keys;
      done := files;
      InOrderBelong(s, files);
      while left != {}
        invariant left <= s.links.Keys && AllBelong(s, done) && InOrder(s, done) && disk == Apply(s, io, done, before)
        invariant forall id :: id in s.files ==> PublishFile(id) in done
        invariant forall id :: id in s.links ==> (PublishLink(id) in done <==> id !in left)
        invariant forall id :: id in s.links.Keys - left ==> io.publishLink(id) == Done
        decreases left
      {
        var id := NextLink(s, left);
        if io.publishLink(id) == NotDone {
          return false, done;
        }
        PublishNext(s, io, done, PublishLink(id), before);
        disk := disk[s.links[id].destination := LinkEntry(s, id, io)];
        done := done + [PublishLink(id)];
        if io.publishLink(id) == DoneThenFailed {
          return false, done;
        }
        left := left - {id};
      }
      return true, done;
    }

    /**
     * Finish a session. Incomplete entries, links that name nothing usable and links that cannot be
     * staged are refused before anything is published.
     */
    method CommitSession(command: FileTransferCommand, io: CommitIo) returns (outcome: FinishOutcome)
      requires Valid()
      modifies this
      ensures Valid() && sessions == old(sessions) - {command.id}
      ensures command.id !in old(sessions) ==> outcome == NoSession && disk == old(disk)
      ensures command.id in old(sessions) ==>
                var s := old(sessions)[command.id];
                && outcome == FinishOf(s, io)
                && (outcome in {IncompleteEntries, UnresolvedLink, LinkNotPrepared} ==> disk == old(disk))
                && PublishedInOrder(s, io, old(disk), disk, outcome in {Published, DirectoryNotFinished})
    {
      hide SessionOk, Apply, InOrder, ResolveLink, AllDone;
      if command.id !in sessions {
        return NoSession;
      }
      var s := sessions[command.id];
      sessions := sessions - {command.id};
      NothingPublished(s, io, disk);
      if !AllComplete(s) {
        return IncompleteEntries;
      }
      if !AllResolved(s, io) {
        return UnresolvedLink;
      }
      if !AllPrepared(s, io) {
        return LinkNotPrepared;
      }
      ghost var done;
      var ok;
      ok, done := PublishFiles(s, io);
      if !ok {
        return FileNotPublished;
      }
      ok, done := PublishLinks(s, io, done, old(disk));
      if !ok {
        return LinkNotPublished;
      }
      if exists id :: id in s.directories && !io.directoryOk(id) {
        return DirectoryNotFinished;
      }
      return Published;
    }

    method Abort(id: Text)
      requires Valid()
      modifies this`sessions
      ensures Valid() && sessions == old(sessions) - {id}
    {
      sessions := sessions - {id};
    }
  }

  lemma ChargeKeeps(s: SendSession, bytes: nat)
    ensures Charge(s, bytes) == s.(consumedBytes := Charge(s, bytes).consumedBytes)
  {}

  lemma LeastIn(ids: set<Text>, id: Text)
    requires IsLeast(ids, id)
    ensures id in ids
  {}

  /** While only files are done, the least id left is what has to come next. */
  lemma LeastIsNext(s: SendSession, left: set<Text>, id: Text, done: seq<Publication>)
    requires IsLeast(left, id) && left <= s.files.Keys
    requires forall other :: other in s.files ==> (PublishFile(other) in done <==> other !in left)
    ensures forall q: Publication :: Belongs(s, q) && q !in done ==> !Before(s, q, PublishFile(id))
  {
    hide Less;
  }

  /** Some hard link that is left, or any link when there is none. */
  method NextLink(s: SendSession, left: set<Text>) returns (id: Text)
    requires left != {} && left <= s.links.Keys
    ensures id in left
    ensures s.links[id].fileType == Link || forall other :: other in left ==> s.links[other].fileType != Link
  {
    var hard := set other | other in left && s.links[other].fileType == Link;
    if hard != {} {
      id :| id in hard;
    } else {
      id :| id in left;
      assert forall other :: other in left && s.links[other].fileType == Link ==> other in hard;
    }
  }
}
