/** The executor of approved receive sessions: listing, one-shot sources, signatures and deltas. */
module ReceiveFilesystem {
  import opened Bytes
  import opened ByteStreams
  import opened Signatures
  import opened DeltaFormat
  import opened DeltaWriter
  import opened TransferCommands
  import opened MapSums
  import opened ReceiveTree
  import opened ReceiveSessions
  import opened ReceiveFrames

  /** The status texts of the executor, by name. */
  datatype ReceiveStatus =
    | BadSourcePath  // EINVAL:Source path is not representable
    | AlreadyListed  // EINVAL:Receive metadata listing is already complete
    | NoSuchSession  // ENOENT:Unknown receive filesystem session
    | IdInUse  // EEXIST:Duplicate receive file id
    | NotApproved  // EPERM:Source path was not approved
    | NotARegularFile  // EINVAL:Rsync can be requested only for regular files
    | SourceChanged  // ESTALE:Source file changed after approval
    | AbsoluteSymlink  // EINVAL:Absolute symlink data must not be requested
    | DirectoryRequested  // EISDIR:Directory data must not be requested
    | HardLinkRequested  // EINVAL:Hard-link data must not be requested
    | NoSignaturePending  // EINVAL:No rsync signature is pending for this file
    | SignatureTooLarge  // EFBIG:Rsync signature exceeds configured limits
    | InvalidSignature  // EINVAL:Invalid rsync signature

  datatype Answer = Silent | Says(status: ReceiveStatus) | Streams(result: StreamResult, frames: seq<Frame>)

  /** What an approved path resolves to. */
  datatype Found = Found(path: Text, node: Node)

  /** The files behind the retained handles, by identity, and how much the output sink takes. */
  datatype FilesIo = FilesIo(h: Hashes, content: nat -> seq<byte>, lengthKnown: nat -> bool, accepts: nat -> bool)
  {
    /** The file still has the length it was listed with. */
    predicate Unchanged(size: nat, identity: nat) {
      lengthKnown(identity) && |content(identity)| == size
    }
  }

  function SessionIn(sessions: map<Text, ReceiveSession>, id: Text): ReceiveSession {
    if id in sessions then sessions[id] else EMPTY_SESSION
  }

  predicate AsksRsync(command: FileTransferCommand) {
    command.transmissionType == Some(FileTransmissionType.Rsync)
  }

  /* ---- What each call does to its session ---- */

  /** A path that fits is listed whole; one that does not leaves every counter alone and at most a note. */
  ghost predicate Lists(l: ReceiveLimits, s: ReceiveSession, command: FileTransferCommand, quiet: byte, found: Found,
                        s': ReceiveSession)
    requires command.fileId.Some?
  {
    if Fits(BoundsLeft(l, s), 0, 0, found.node) then
      s' == WithPath(l, s, command.fileId.value, found.path, found.node)
    else
      exists error: ListingError ::
        && Refuses(BoundsLeft(l, s), 0, 0, found.node, error)
        && s' == if Spoken(quiet, true) then s.(entries := s.entries + [ErrorItem(error)]) else s
  }

  /** The bytes go out whole in canonical frames, or the sink closed before the last of them. */
  predicate Delivers(io: FilesIo, bytes: seq<byte>, answer: Answer) {
    && answer.Streams?
    && ((answer.result == Streamed && answer.frames == Frames(bytes))
        || (answer.result == SinkClosed && !io.accepts(|answer.frames|) && answer.frames < Frames(bytes)))
  }

  predicate TransmitAnswers(source: ReceiveSource, rsync: bool, io: FilesIo, answer: Answer) {
    match source
    case RegularSource(size, identity) =>
      if !io.Unchanged(size, identity) then answer == Says(SourceChanged)
      else if rsync then answer == Silent
      else Delivers(io, io.content(identity), answer)
    case SymlinkSource(target, absolute) =>
      if rsync then answer == Says(NotARegularFile)
      else if absolute then answer == Says(AbsoluteSymlink)
      else Delivers(io, target, answer)
    case DirectorySource => answer == Says(if rsync then NotARegularFile else DirectoryRequested)
    case LinkSource => answer == Says(if rsync then NotARegularFile else HardLinkRequested)
  }

  /** The next source of the name is used up; a regular one asked for by rsync now awaits a signature. */
  function Transmitted(s: ReceiveSession, name: Text, id: Text, rsync: bool, io: FilesIo): ReceiveSession
    requires name in s.sources && s.sources[name] != []
  {
    var source := s.sources[name][0];
    var next := HandedOut(s, name, id);
    if rsync && source.RegularSource? && io.Unchanged(source.size, source.identity)
    then Awaiting(next, id, source.size, source.identity)
    else next
  }

  /** What a signature command leaves of its session. */
  function Signed(s: ReceiveSession, id: Text, data: seq<byte>, completes: bool): ReceiveSession
    requires id in s.rsync
  {
    if !SignatureFits(s, id, data) then Released(s, id)
    else if !completes then Buffered(s, id, data)
    else Released(Buffered(s, id, data), id)
  }

  /** The index that a well-formed signature parses to. */
  ghost predicate ParsedFrom(signature: seq<byte>, parsed: Signature) {
    && WellFormed(signature, MAX_RSYNC_SIGNATURE_BYTES_PER_FILE)
    && parsed.blockSize == FromLe32(signature[8..12]) && parsed.Indexes(DecodeRecords(signature[12..]))
  }

  /** The delta of the listed bytes of the file against the signature, whole, in canonical frames. */
  ghost predicate SendsDelta(io: FilesIo, pending: PendingRsync, parsed: Signature, answer: Answer)
    requires 0 < parsed.blockSize
  {
    var content := io.content(pending.identity);
    && answer.Streams?
    && (answer.result == Streamed ==>
          pending.size <= |content| && answer.frames == Frames(DeltaBytes(io.h, parsed, content[..pending.size])))
    && (answer.result == SinkClosed ==>
          !io.accepts(|answer.frames|) && answer.frames < Frames(DeltaBytes(io.h, parsed,
                                                                            content[..Min(pending.size, |content|)])))
    && (answer.result == SourceTruncated ==> |content| < pending.size)
    && (answer.result == DeltaFailed ==> !AllEncodable(DeltaOps(io.h, parsed, content[..Min(pending.size, |content|)])))
  }

  ghost predicate SignatureAnswers(s: ReceiveSession, id: Text, data: seq<byte>, completes: bool, io: FilesIo,
                                   answer: Answer)
    requires id in s.rsync
  {
    var signature := s.rsync[id].signature + data;
    if !SignatureFits(s, id, data) then answer == Says(SignatureTooLarge)
    else if !completes then answer == Silent
    else if !WellFormed(signature, MAX_RSYNC_SIGNATURE_BYTES_PER_FILE) then answer == Says(InvalidSignature)
    else exists parsed: Signature :: ParsedFrom(signature, parsed) && SendsDelta(io, s.rsync[id], parsed, answer)
  }

  type Sessions = map<Text, ReceiveSession>

  ghost predicate ListsPath(l: ReceiveLimits, before: Sessions, command: FileTransferCommand, quiet: byte,
                            found: Option<Found>,
                            after: Sessions, answer: Answer)
    requires command.fileId.Some?
  {
    if found.None? then after == before && answer == Says(BadSourcePath)
    else
      var s := SessionIn(before, command.id);
      && command.id in after && after == before[command.id := after[command.id]]
      && if s.listingComplete then after[command.id] == s && answer == Says(AlreadyListed)
         else Lists(l, s, command, quiet, found.value, after[command.id]) && answer == Silent
  }

  /** All items are announced and the listing is complete, or the sink closed on one and the session is gone. */
  ghost predicate CompletesListing(before: Sessions, id: Text, accepts: nat -> bool, after: Sessions, ok: bool,
                                   announced: seq<Announcement>) {
    var s := SessionIn(before, id);
    var all := Announcements(s.entries, PathIds(EntriesOf(s.entries)));
    if forall k :: 0 <= k < |all| ==> accepts(k) then
      after == before[id := Listed(s)] && announced == all && ok == accepts(|all|)
    else
      after == before - {id} && !ok && announced < all && !accepts(|announced|)
  }

  predicate Transmits(before: Sessions, command: FileTransferCommand, io: FilesIo, after: Sessions, answer: Answer)
    requires command.fileId.Some? && command.name.Some?
  {
    if command.id !in before then after == before && answer == Says(NoSuchSession)
    else
      var s, name, id := before[command.id], command.name.value, command.fileId.value;
      if id in s.transmittedIds then after == before && answer == Says(IdInUse)
      else if name !in s.sources then after == before && answer == Says(NotApproved)
      else
        && s.sources[name] != []
        && after == before[command.id := Transmitted(s, name, id, AsksRsync(command), io)]
        && TransmitAnswers(s.sources[name][0], AsksRsync(command), io, answer)
  }

  ghost predicate TakesSignature(before: Sessions, command: FileTransferCommand, io: FilesIo, after: Sessions,
                                 answer: Answer) {
    if command.fileId.None? then after == before && answer == Silent
    else if command.id !in before then after == before && answer == Says(NoSuchSession)
    else
      var s, id, completes := before[command.id], command.fileId.value, command.action == EndData;
      if id !in s.rsync then after == before && answer == Says(NoSignaturePending)
      else
        && after == before[command.id := Signed(s, id, command.data, completes)]
        && SignatureAnswers(s, id, command.data, completes, io, answer)
  }

  /** A file command lists until the listing is complete, and asks for data from then on. */
  ghost predicate Handles(l: ReceiveLimits, before: Sessions, command: FileTransferCommand, quiet: byte,
                          found: Option<Found>, io: FilesIo,
                          after: Sessions, answer: Answer)
    requires command.action == File ==> command.fileId.Some? && command.name.Some?
  {
    match command.action
    case File =>
      if SessionIn(before, command.id).listingComplete then Transmits(before, command, io, after, answer)
      else ListsPath(l, before, command, quiet, found, after, answer)
    case Data => TakesSignature(before, command, io, after, answer)
    case EndData => TakesSignature(before, command, io, after, answer)
    case Finished => after == before - {command.id} && answer == Silent
    case _ => after == before && answer == Silent
  }

  /** A command touches no other session, and the closing one removes its own. */
  lemma HandlesOne(l: ReceiveLimits, before: Sessions, command: FileTransferCommand, quiet: byte, found: Option<Found>,
                   io: FilesIo,
                   after: Sessions, answer: Answer)
    requires command.action == File ==> command.fileId.Some? && command.name.Some?
    requires Handles(l, before, command, quiet, found, io, after, answer)
    ensures after - {command.id} == before - {command.id}
    ensures command.action == Finished ==> command.id !in after
  {
    hide Lists, Transmitted, TransmitAnswers, Signed, SignatureAnswers;
  }

  lemma TransmittedOk(l: ReceiveLimits, s: ReceiveSession, name: Text, id: Text, rsync: bool, io: FilesIo)
    requires ReceiveOk(l, s) && name in s.sources && id !in s.transmittedIds
    ensures s.sources[name] != [] && ReceiveOk(l, Transmitted(s, name, id, rsync, io))
  {
    hide ReceiveOk, Dequeue;
    QueuesHold(l, s, name, id);
    HandedOutOk(l, s, name, id);
    var source := s.sources[name][0];
    if source.RegularSource? {
      AwaitingOk(l, HandedOut(s, name, id), id, source.size, source.identity);
    }
  }

  lemma QueuesHold(l: ReceiveLimits, s: ReceiveSession, name: Text, id: Text)
    requires ReceiveOk(l, s) && name in s.sources
    ensures s.sources[name] != [] && s.listingComplete
    ensures id !in s.transmittedIds ==> id !in s.rsync
  {}

  lemma SignedOk(l: ReceiveLimits, s: ReceiveSession, id: Text, data: seq<byte>, completes: bool)
    requires ReceiveOk(l, s) && id in s.rsync
    ensures ReceiveOk(l, Signed(s, id, data, completes))
  {
    hide ReceiveOk, SignatureFits;
    ReleasedOk(l, s, id);
    if SignatureFits(s, id, data) {
      BufferedOk(l, s, id, data);
      ReleasedOk(l, Buffered(s, id, data), id);
    }
  }

  lemma ListsOk(l: ReceiveLimits, s: ReceiveSession, command: FileTransferCommand, quiet: byte, found: Found,
                s': ReceiveSession)
    requires ReceiveOk(l, s) && !s.listingComplete && command.fileId.Some? && Lists(l, s, command, quiet, found, s')
    ensures ReceiveOk(l, s')
  {
    hide ReceiveOk, Fits, Refuses;
    if Fits(BoundsLeft(l, s), 0, 0, found.node) {
      WithPathOk(l, s, command.fileId.value, found.path, found.node);
    } else {
      var error: ListingError :| Refuses(BoundsLeft(l, s), 0, 0, found.node, error)
        && s' == if Spoken(quiet, true) then s.(entries := s.entries + [ErrorItem(error)]) else s;
      WithErrorOk(l, s, error);
    }
  }

  /** Ids stay below the file limit, so numbering the next path cannot run out of them. */
  lemma IdsLeft(l: ReceiveLimits, s: ReceiveSession)
    requires ReceiveOk(l, s)
    ensures s.nextActualId + BoundsLeft(l, s).maxEntries < U64_LIMIT
  {}

  /* ---- The executor object ---- */

  class TtyTransferReceiveFilesystem {
    const limits: ReceiveLimits
    var sessions: map<Text, ReceiveSession>

    ghost predicate Valid()
      reads this
    {
      forall id :: id in sessions ==> ReceiveOk(limits, sessions[id])
    }

    constructor (limits: ReceiveLimits)
      ensures Valid() && this.limits == limits && sessions == map[]
    {
      this.limits := limits;
      sessions := map[];
    }

    /** List one approved path; what it resolves to, if anything, comes from outside. */
    method ListPath(command: FileTransferCommand, quiet: byte, found: Option<Found>) returns (answer: Answer)
      requires Valid() && command.fileId.Some?
      modifies this`sessions
      ensures Valid()
      ensures ListsPath(limits, old(sessions), command, quiet, found, sessions, answer)
    {
      hide ReceiveOk, Fits, Refuses, Preorder, Count, TotalBytes, Spoken, BoundsLeft;
      if found.None? {
        return Says(BadSourcePath);
      }
      var session := SessionIn(sessions, command.id);
      EmptyReceiveOk(limits);
      sessions := sessions[command.id := session];
      if session.listingComplete {
        return Says(AlreadyListed);
      }
      var bounds := BoundsLeft(limits, session);
      IdsLeft(limits, session);
      var collected := CollectReceiveTree(command.fileId.value, found.value.path, found.value.node,
                                          session.nextActualId, bounds);
      ghost var before := session;
      if collected.Err? {
        if Spoken(quiet, true) {
          session := session.(entries := session.entries + [ErrorItem(collected.error)]);
        }
        assert Refuses(BoundsLeft(limits, before), 0, 0, found.value.node, collected.error);
      } else {
        session := session.(nextActualId := collected.value.nextActualId,
                            listedFiles := session.listedFiles + |collected.value.entries|,
                            plannedBytes := session.plannedBytes + collected.value.plannedBytes,
                            entries := session.entries + ItemsOf(collected.value.entries));
      }
      ListsOk(limits, before, command, quiet, found.value, session);
      sessions := sessions[command.id := session];
      return Silent;
    }

    /**
     * Announce everything listed, queue what can be asked for, and say that the listing is over. A
     * sink that closes on an item drops the session.
     */
    method CompleteListing(id: Text, accepts: nat -> bool) returns (ok: bool, announced: seq<Announcement>)
      requires Valid()
      modifies this`sessions
      ensures Valid()
      ensures CompletesListing(old(sessions), id, accepts, sessions, ok, announced)
    {
      hide ReceiveOk, SourceOf, AnnouncementOf, PathIds, EntriesOf, Announcements, EnqueueAll, Listed, Enqueue;
      var session := SessionIn(sessions, id);
      EmptyReceiveOk(limits);
      ListedOk(limits, session);
      var items, earlier, sources := session.entries, [], session.sources;
      var pathIds := PathIds(EntriesOf(items));
      ghost var all := Announcements(items, pathIds);
      announced := [];
      NothingListed(session.sources, pathIds);
      assert items[..0] == [];
      var k := 0;
      while k < |items|
        invariant 0 <= k <= |items| && earlier == EntriesOf(items[..k]) && sessions == old(sessions)
        invariant announced == Announcements(items[..k], pathIds)
        invariant forall j :: 0 <= j < k ==> accepts(j)
        invariant sources == EnqueueAll(session.sources, earlier)
      {
        NextItem(items, k, pathIds);
        EnqueueOne(session.sources, earlier, items[k]);
        if !accepts(k) {
          AnnouncedPrefix(items, k, pathIds);
          sessions := sessions - {id};
          return false, announced;
        }
        announced := announced + [AnnouncementOf(earlier, items[k], pathIds)];
        if items[k].EntryItem? {
          var entry := items[k].entry;
          sources := Enqueue(sources, entry.path, SourceOf(earlier, entry));
          earlier := earlier + [entry];
        }
        k := k + 1;
      }
      assert items[..k] == items;
      ListedIs(session);
      session := session.(entries := [], listingComplete := true, sources := sources);
      sessions := sessions[id := session];
      ok := accepts(|items|);
    }

    /** Hand out the next source of an approved name, once. */
    method TransmitSource(command: FileTransferCommand, io: FilesIo) returns (answer: Answer)
      requires Valid() && command.fileId.Some? && command.name.Some?
      modifies this`sessions
      ensures Valid()
      ensures Transmits(old(sessions), command, io, sessions, answer)
    {
      hide ReceiveOk, Frames;
      var name, fileId := command.name.value, command.fileId.value;
      if command.id !in sessions {
        return Says(NoSuchSession);
      }
      var session := sessions[command.id];
      if fileId in session.transmittedIds {
        return Says(IdInUse);
      }
      if name !in session.sources {
        return Says(NotApproved);
      }
      TransmittedOk(limits, session, name, fileId, AsksRsync(command), io);
      var source := session.sources[name][0];
      session := HandedOut(session, name, fileId);
      answer := Silent;
      if AsksRsync(command) {
        if !source.RegularSource? {
          answer := Says(NotARegularFile);
        } else if !io.Unchanged(source.size, source.identity) {
          answer := Says(SourceChanged);
        } else {
          session := Awaiting(session, fileId, source.size, source.identity);
        }
      } else {
        answer := SendSource(source, io);
      }
      sessions := sessions[command.id := session];
    }

    /** The data of a source that was asked for without rsync. */
    method SendSource(source: ReceiveSource, io: FilesIo) returns (answer: Answer)
      ensures TransmitAnswers(source, false, io, answer)
    {
      hide Frames;
      match source {
        case RegularSource(size, identity) =>
          if !io.Unchanged(size, identity) {
            return Says(SourceChanged);
          }
          var file := new ByteSource(io.content(identity));
          var r, frames := StreamFile(file, size, io.accepts);
          assert file.data[..size] == file.data;
          return Streams(r, frames);
        case SymlinkSource(target, absolute) =>
          if absolute {
            return Says(AbsoluteSymlink);
          }
          var r, frames := StreamBytes(target, io.accepts);
          return Streams(r, frames);
        case DirectorySource => return Says(DirectoryRequested);
        case LinkSource => return Says(HardLinkRequested);
      }
    }

    /** Buffer the peer's signature within both bounds; its last part turns it into a delta. */
    method ReceiveSignature(command: FileTransferCommand, io: FilesIo) returns (answer: Answer)
      requires Valid()
      modifies this`sessions
      ensures Valid()
      ensures TakesSignature(old(sessions), command, io, sessions, answer)
    {
      hide ReceiveOk, SendsDelta, ParsedFrom, WellFormed;
      if command.fileId.None? {
        return Silent;
      }
      var id := command.fileId.value;
      if command.id !in sessions {
        return Says(NoSuchSession);
      }
      var session := sessions[command.id];
      if id !in session.rsync {
        return Says(NoSignaturePending);
      }
      var pending := session.rsync[id];
      SignedOk(limits, session, id, command.data, command.action == EndData);
      if !SignatureFits(session, id, command.data) {
        sessions := sessions[command.id := Released(session, id)];
        return Says(SignatureTooLarge);
      }
      session := Buffered(session, id, command.data);
      if command.action != EndData {
        sessions := sessions[command.id := session];
        return Silent;
      }
      var signature := session.rsync[id].signature;
      sessions := sessions[command.id := Released(session, id)];
      answer := AnswerSignature(pending, signature, io);
    }

    /** Parse a whole signature and send the delta against it. */
    method AnswerSignature(pending: PendingRsync, signature: seq<byte>, io: FilesIo) returns (answer: Answer)
      ensures if !WellFormed(signature, MAX_RSYNC_SIGNATURE_BYTES_PER_FILE) then answer == Says(InvalidSignature)
              else exists parsed: Signature :: ParsedFrom(signature, parsed) && SendsDelta(io, pending, parsed, answer)
    {
      hide WellFormed, Frames, DeltaBytes, DeltaOps, AllEncodable, DecodeRecords, Signature.Indexes;
      var parsed := Parse(signature, MAX_RSYNC_SIGNATURE_BYTES_PER_FILE);
      if parsed.Err? {
        return Says(InvalidSignature);
      }
      WellFormedSize(signature);
      var r, frames := StreamDelta(io.h, io.content(pending.identity), pending.size, parsed.value, io.accepts);
      answer := Streams(r, frames);
      assert ParsedFrom(signature, parsed.value) && SendsDelta(io, pending, parsed.value, answer);
    }

    /** One command of an approved session, or of the requests its approval released. */
    method HandleAuthorized(command: FileTransferCommand, quiet: byte, found: Option<Found>, io: FilesIo)
      returns (answer: Answer)
      requires Valid() && (command.action == File ==> command.fileId.Some? && command.name.Some?)
      modifies this`sessions
      ensures Valid()
      ensures Handles(limits, old(sessions), command, quiet, found, io, sessions, answer)
    {
      hide ReceiveOk, ListsPath, Transmits, TakesSignature;
      answer := Silent;
      match command.action {
        case File =>
          if command.id !in sessions || !sessions[command.id].listingComplete {
            answer := ListPath(command, quiet, found);
          } else {
            answer := TransmitSource(command, io);
          }
        case Data => answer := ReceiveSignature(command, io);
        case EndData => answer := ReceiveSignature(command, io);
        case Finished => sessions := sessions - {command.id};
        case _ =>
      }
    }

    method Abort(id: Text)
      requires Valid()
      modifies this`sessions
      ensures Valid() && sessions == old(sessions) - {id}
    {
      sessions := sessions - {id};
    }
  }

  lemma WellFormedSize(signature: seq<byte>)
    requires WellFormed(signature, MAX_RSYNC_SIGNATURE_BYTES_PER_FILE)
    ensures 12 <= |signature| && WholeRecords(|signature|) && 0 < FromLe32(signature[8..12])
  {}

  lemma NothingListed(sources: map<Text, seq<ReceiveSource>>, pathIds: map<Text, nat>)
    ensures EntriesOf([]) == [] && Announcements([], pathIds) == [] && EnqueueAll(sources, []) == sources
  {}

  lemma ListedIs(s: ReceiveSession)
    ensures Listed(s) == s.(entries := [], listingComplete := true,
                            sources := EnqueueAll(s.sources, EntriesOf(s.entries)))
  {}

  lemma NextItem(items: seq<PendingItem>, k: nat, pathIds: map<Text, nat>)
    requires k < |items|
    ensures EntriesOf(items[..k + 1]) == EntriesOf(items[..k]) + if items[k].EntryItem? then [items[k].entry] else []
    ensures Announcements(items[..k + 1], pathIds)
         == Announcements(items[..k], pathIds) + [AnnouncementOf(EntriesOf(items[..k]), items[k], pathIds)]
  {
    hide AnnouncementOf;
    var upTo := items[..k + 1];
    assert upTo[..|upTo| - 1] == items[..k];
  }

  lemma EnqueueOne(sources: map<Text, seq<ReceiveSource>>, earlier: seq<ListedEntry>, item: PendingItem)
    ensures item.EntryItem? ==>
              EnqueueAll(sources, earlier + [item.entry])
                == Enqueue(EnqueueAll(sources, earlier), item.entry.path, SourceOf(earlier, item.entry))
  {}

  /** What was announced so far is a proper prefix of all that would be. */
  lemma {:induction false} AnnouncedPrefix(items: seq<PendingItem>, k: nat, pathIds: map<Text, nat>)
    requires k < |items|
    ensures Announcements(items[..k], pathIds) < Announcements(items, pathIds)
    decreases |items|
  {
    hide AnnouncementOf, EntriesOf;
    var initial := items[..|items| - 1];
    if k == |items| - 1 {
    } else {
      AnnouncedPrefix(initial, k, pathIds);
      assert initial[..k] == items[..k];
    }
  }
}
