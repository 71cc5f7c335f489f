/** What links and directories of a send session are: where they go, and what their data said. */
module SendLinks {
  import opened Bytes
  import opened StagedDeltas
  import opened TransferCommands
  import opened SendSessions
  import opened SendBudget
  import opened SendRuns
  import opened SendContents
  import opened SendPublication

  /* ---- Where they go ---- */

  /** The link goes where its command's path was resolved to, and is of the kind that its command asked for. */
  predicate LinkStagedAs(k: StagedLink, command: FileTransferCommand, io: StageIo) {
    io.destination == Some(k.destination) && command.fileType == Some(k.fileType) && k.fileType in {Symlink, Link}
  }

  predicate SameLink(k: StagedLink, m: StagedLink) {
    k.destination == m.destination && k.fileType == m.fileType
  }

  lemma StageAcceptedOthers(l: Limits, s: SendSession, command: FileTransferCommand, id: Text, io: StageIo,
                            destination: Text, other: Text)
    requires s.reservedBytes <= l.maxSessionBytes && io.destination == Some(destination)
    requires id !in s.links && id !in s.directories
    ensures var t := StageAccepted(l, s, command, id, io, destination).0;
            && (other in t.links ==>
                  if other in s.links then t.links[other] == s.links[other]
                  else id == other && LinkStagedAs(t.links[other], command, io)
                       && t.links[other].data == [] && !t.links[other].complete)
            && (other in t.directories ==>
                  if other in s.directories then t.directories[other] == s.directories[other]
                  else id == other && DirectoryStagedAs(t.directories[other], command, io))
  {
    hide NewWriter, OutputLimit, Compressed, ReservationOf;
  }

  lemma StageOthers(l: Limits, s: SendSession, command: FileTransferCommand, id: Text, io: StageIo)
    requires s.reservedBytes <= l.maxSessionBytes
    ensures var t := StageEntry(l, s, command, id, io).0;
            || (t.links == s.links && t.directories == s.directories)
            || (id !in s.links && id !in s.directories && io.destination.Some?
                && t == StageAccepted(l, s, command, id, io, io.destination.value).0)
  {
    hide StageAccepted, FitsBudget, PlannedUnwritten;
  }

  lemma LinkDataStep(l: Limits, s: SendSession, id: Text, data: seq<byte>, completes: bool, utf8: bool)
    requires id in s.links
    ensures var t := LinkData(l, s, id, data, completes, utf8).0;
            && t.directories == s.directories
            && (id in t.links ==>
                  && SameLink(s.links[id], t.links[id]) && !s.links[id].complete
                  && t.links[id].data == s.links[id].data + data && t.links[id].complete == completes)
    ensures var t := LinkData(l, s, id, data, completes, utf8).0;
            forall other :: other in t.links && other != id ==> other in s.links && t.links[other] == s.links[other]
  {
    hide LinkDataFits, ParseLinkTarget;
  }

  lemma FileDataLinks(l: Limits, s: SendSession, id: Text, data: seq<byte>, completes: bool, io: WriteIo)
    requires id in s.files && (s.files[id].writer.Some? ==> s.files[id].writer.value.Valid())
    ensures FileData(l, s, id, data, completes, io).0.links == s.links
    ensures FileData(l, s, id, data, completes, io).0.directories == s.directories
  {
    hide WriteThrough, WriteLimit, FailedWrite, CloseWriter;
  }

  /** What one data command does to links and directories. */
  lemma DataStep(l: Limits, s: SendSession, id: Text, data: seq<byte>, completes: bool, io: WriteIo, other: Text)
    requires SessionOk(l, s)
    ensures var t := Step(l, s, Event.Data(id, data, completes, io));
            && t.directories == s.directories
            && (other in t.links ==>
                  && other in s.links
                  && if id != other then t.links[other] == s.links[other]
                     else SameLink(s.links[id], t.links[id]) && !s.links[id].complete
                          && t.links[id].data == s.links[id].data + data && t.links[id].complete == completes)
  {
    StepWrites(l, s, id, data, completes, io);
    LinkIsNotRejected(l, s, other);
    hide Step, SessionOk, FileData, LinkData, SameLink;
    if id in s.links {
      LinkDataStep(l, s, id, data, completes, io.utf8);
    }
    if id in s.files {
      FileDataLinks(l, s, id, data, completes, io);
    }
  }

  lemma LinkIsNotRejected(l: Limits, s: SendSession, id: Text)
    requires SessionOk(l, s)
    ensures id in s.links ==> id !in s.rejected && id !in s.directories
  {
    hide EachOk, BudgetOk;
  }

  /** What staging one entry does to links and directories. */
  lemma StageStep(l: Limits, s: SendSession, e: Event, other: Text)
    requires SessionOk(l, s) && e.Stage?
    ensures var t := Step(l, s, e);
            && (other in t.links ==>
                  if other in s.links then t.links[other] == s.links[other]
                  else e.id == other && LinkStagedAs(t.links[other], e.command, e.stageIo)
                       && t.links[other].data == [] && !t.links[other].complete)
            && (other in t.directories ==>
                  if other in s.directories then t.directories[other] == s.directories[other]
                  else e.id == other && DirectoryStagedAs(t.directories[other], e.command, e.stageIo))
  {
    StepStages(l, s, e.command, e.id, e.stageIo);
    StageOthers(l, s, e.command, e.id, e.stageIo);
    hide Step, SessionOk, StageEntry, StageAccepted, LinkStagedAs;
    if e.id !in s.links && e.id !in s.directories && e.stageIo.destination.Some? {
      StageAcceptedOthers(l, s, e.command, e.id, e.stageIo, e.stageIo.destination.value, other);
    }
  }

  predicate DirectoryStagedAs(destination: Text, command: FileTransferCommand, io: StageIo) {
    command.fileType == Some(Directory) && io.destination == Some(destination)
  }

  /** The data of the commands for `id`, joined in the order they came. */
  function Joined(events: seq<Event>, id: Text): seq<byte> {
    if events == [] then [] else
      (if IsDataFor(events[0], id) then events[0].data else []) + Joined(events[1..], id)
  }

  lemma {:induction false} JoinedSnoc(events: seq<Event>, e: Event, id: Text)
    ensures Joined(events + [e], id) == Joined(events, id) + if IsDataFor(e, id) then e.data else []
    ensures !IsDataFor(e, id) ==> Joined(events + [e], id) == Joined(events, id)
    decreases |events|
  {
    if events == [] {
      assert [e][1..] == [];
    } else {
      JoinedSnoc(events[1..], e, id);
      assert (events + [e])[1..] == events[1..] + [e];
    }
  }

  /** Only the last of the data commands completes the link. */
  ghost predicate LinkEnded(events: seq<Event>, id: Text, complete: bool) {
    && (forall j :: 0 <= j < |events| && IsDataFor(events[j], id) && events[j].completes ==> complete)
    && (forall i, j :: 0 <= j < i < |events| && IsDataFor(events[j], id) && IsDataFor(events[i], id) ==>
          !events[j].completes)
    && (complete ==> exists j :: 0 <= j < |events| && IsDataFor(events[j], id) && events[j].completes)
  }

  lemma LinkEndedOther(events: seq<Event>, e: Event, id: Text, complete: bool)
    requires LinkEnded(events, id, complete) && !IsDataFor(e, id)
    ensures LinkEnded(events + [e], id, complete)
  {
    var all := events + [e];
    if complete {
      var j :| 0 <= j < |events| && IsDataFor(events[j], id) && events[j].completes;
      assert all[j] == events[j];
    }
  }

  lemma LinkEndedNext(events: seq<Event>, e: Event, id: Text)
    requires LinkEnded(events, id, false) && IsDataFor(e, id)
    ensures LinkEnded(events + [e], id, e.completes)
  {
    var all := events + [e];
    assert all[|events|] == e;
    assert forall j :: 0 <= j < |events| ==> all[j] == events[j];
  }

  /**
   * A live link was staged by one command, as that command and its resolved path say, and its data is
   * what the data commands for its id have carried since, joined in the order they came.
   */
  lemma {:induction false} LinkHoldsItsData(l: Limits, events: seq<Event>, id: Text) returns (staged: nat)
    requires l.Valid() && id in After(l, events).links
    ensures staged < |events| && events[staged].Stage? && events[staged].id == id
    ensures var k := After(l, events).links[id];
            && LinkStagedAs(k, events[staged].command, events[staged].stageIo)
            && k.data == Joined(events[staged + 1..], id) && LinkEnded(events[staged + 1..], id, k.complete)
    decreases |events|
  {
    hide After, Step, SessionOk, LinkStagedAs, Joined, LinkEnded;
    NoLinks(l, id);
    var initial, e := events[..|events| - 1], events[|events| - 1];
    var s := After(l, initial);
    AfterSnoc(l, initial, e);
    assert initial + [e] == events;
    LinkStep(l, s, e, id);
    if id !in s.links {
      staged := |events| - 1;
      assert events[staged + 1..] == [];
    } else {
      staged := LinkHoldsItsData(l, initial, id);
      var rest := initial[staged + 1..];
      assert events[staged + 1..] == rest + [e];
      JoinedSnoc(rest, e, id);
      SameLinkStaged(s.links[id], After(l, events).links[id], events[staged].command, events[staged].stageIo);
      if IsDataFor(e, id) {
        LinkEndedNext(rest, e, id);
      } else {
        LinkEndedOther(rest, e, id, s.links[id].complete);
      }
    }
  }

  lemma NoLinks(l: Limits, id: Text)
    requires l.Valid()
    ensures After(l, []) == EMPTY_SESSION && Joined([], id) == [] && LinkEnded([], id, false)
  {
    hide SessionOk, Step, LinkEnded;
    NothingJoined(id);
  }

  lemma NothingJoined(id: Text)
    ensures Joined([], id) == [] && LinkEnded([], id, false)
  {}

  lemma SameLinkStaged(k: StagedLink, m: StagedLink, command: FileTransferCommand, io: StageIo)
    requires LinkStagedAs(k, command, io) && SameLink(k, m)
    ensures LinkStagedAs(m, command, io)
  {}

  lemma LinkStep(l: Limits, s: SendSession, e: Event, id: Text)
    requires SessionOk(l, s) && id in Step(l, s, e).links
    ensures var k := Step(l, s, e).links[id];
            if id !in s.links then
              && e.Stage? && e.id == id && LinkStagedAs(k, e.command, e.stageIo)
              && k.data == [] && !k.complete
            else
              && SameLink(s.links[id], k)
              && if IsDataFor(e, id) then !s.links[id].complete && k.data == s.links[id].data + e.data
                && k.complete == e.completes
                 else k == s.links[id]
  {
    hide Step, SessionOk, LinkStagedAs;
    if e.Stage? {
      StageStep(l, s, e, id);
    } else {
      DataStep(l, s, e.dataId, e.data, e.completes, e.writeIo, id);
    }
  }

  /** A directory was made where its command's path was resolved to. */
  lemma {:induction false} DirectoryWasStaged(l: Limits, events: seq<Event>, id: Text) returns (staged: nat)
    requires l.Valid() && id in After(l, events).directories
    ensures staged < |events| && events[staged].Stage? && events[staged].id == id
    ensures DirectoryStagedAs(After(l, events).directories[id], events[staged].command, events[staged].stageIo)
    decreases |events|
  {
    hide After, Step, SessionOk, DirectoryStagedAs;
    NoLinks(l, id);
    var initial, e := events[..|events| - 1], events[|events| - 1];
    var s := After(l, initial);
    AfterSnoc(l, initial, e);
    assert initial + [e] == events;
    if e.Stage? {
      StageStep(l, s, e, id);
    } else {
      DataStep(l, s, e.dataId, e.data, e.completes, e.writeIo, id);
    }
    if id in s.directories {
      staged := DirectoryWasStaged(l, initial, id);
    } else {
      staged := |events| - 1;
    }
  }

  /* ---- What a link leads to ---- */

  /** The data is this ASCII prefix and then the value. */
  predicate Prefixed(data: seq<byte>, prefix: string, value: Text) {
    && |data| == |prefix| + |value| && data[|prefix|..] == value
    && forall i :: 0 <= i < |prefix| ==> data[i] as int == prefix[i] as int
  }

  predicate ByFid(data: seq<byte>, value: Text) { Prefixed(data, "fid:", value) }
  predicate ByAbsoluteFid(data: seq<byte>, value: Text) { Prefixed(data, "fid_abs:", value) }
  predicate ByPath(data: seq<byte>, value: Text) { Prefixed(data, "path:", value) }

  lemma PrefixIs(data: seq<byte>)
    ensures FID_ABS <= data <==> |data| >= 8 && ByAbsoluteFid(data, data[8..])
    ensures FID <= data <==> |data| >= 4 && ByFid(data, data[4..])
    ensures PATH <= data <==> |data| >= 5 && ByPath(data, data[5..])
  {}

  lemma OnePrefix(data: seq<byte>, value: Text)
    ensures ByAbsoluteFid(data, value) ==> FID_ABS <= data && value == data[8..]
    ensures ByFid(data, value) ==> FID <= data && !(FID_ABS <= data) && value == data[4..]
    ensures ByPath(data, value) ==> PATH <= data && !(FID <= data) && !(FID_ABS <= data) && value == data[5..]
  {
    assert FID_ABS <= data ==> data[3] == FID_ABS[3] && data[0] == FID_ABS[0];
    assert FID <= data ==> data[0] == FID[0];
    assert ByFid(data, value) ==> data[3] as int == "fid:"[3] as int;
    assert ByPath(data, value) ==> data[0] as int == "path:"[0] as int;
  }

  /** Some entry of the session is to be at this path under this id. */
  predicate EntryAt(s: SendSession, id: Text, path: Text) {
    || (id in s.files && s.files[id].destination == path)
    || (id in s.directories && s.directories[id] == path)
    || (id in s.links && s.links[id].destination == path)
  }

  /** A hard link leads to the file whose id its data names, however it names it. */
  predicate LeadsToFile(s: SendSession, data: seq<byte>, value: Text, source: Text) {
    (ByFid(data, value) || ByAbsoluteFid(data, value)) && value in s.files && source == value
  }

  /**
   * A symbolic link leads to the path its data names, or to where the entry that its data names is to
   * be: as that path itself, or as that path seen from where the link is.
   */
  ghost predicate LeadsToPath(s: SendSession, data: seq<byte>, value: Text, from: Text, io: CommitIo, target: Text) {
    || (ByPath(data, value) && io.linkPath(value) == Some(target))
    || (ByAbsoluteFid(data, value) && EntryAt(s, value, target))
    || (ByFid(data, value)
        && exists path: Text :: EntryAt(s, value, path) && io.relativePath(path, from) == Some(target))
  }

  /** The value is a name: not empty, and without a NUL. */
  predicate IsName(value: Text) {
    value != [] && 0 !in value
  }

  /** The data names the value in this way. */
  predicate Names(data: seq<byte>, kind: LinkTargetKind, value: Text) {
    match kind
    case FidAbsolute => ByAbsoluteFid(data, value)
    case FidRelative => ByFid(data, value)
    case PathTarget => ByPath(data, value)
  }

  lemma TargetIs(data: seq<byte>, utf8: bool, value: Text, kind: LinkTargetKind)
    ensures ParseLinkTarget(data, utf8) == Some(LinkTarget(kind, value)) <==>
              utf8 && IsName(value) && Names(data, kind, value)
  {
    hide ByFid, ByAbsoluteFid, ByPath;
    PrefixIs(data);
    OnePrefix(data, value);
  }

  lemma OneEntry(s: SendSession, id: Text, path: Text)
    requires Disjoint(s)
    ensures EntryAt(s, id, path) <==> DestinationOf(s, id) == Some(path)
  {}

  lemma ResolvedLeads(s: SendSession, id: Text, io: CommitIo, r: LinkResolution)
    requires Disjoint(s) && id in s.links && ResolveLink(s, id, io) == Some(r)
    ensures ResolvesTo(s, id, io, r)
  {
    hide ByFid, ByAbsoluteFid, ByPath, ParseLinkTarget, IsName, Disjoint, EntryAt, DestinationOf;
    var data := s.links[id].data;
    var target := ParseLinkTarget(data, io.utf8(id)).value;
    TargetIs(data, io.utf8(id), target.value, target.kind);
    if DestinationOf(s, target.value).Some? {
      OneEntry(s, target.value, DestinationOf(s, target.value).value);
    }
    assert IsName(target.value) && Leads(s, s.links[id], target.value, io, r);
  }

  lemma LeadsIsResolved(s: SendSession, id: Text, value: Text, io: CommitIo, r: LinkResolution)
    requires Disjoint(s) && id in s.links && io.utf8(id) && IsName(value) && Leads(s, s.links[id], value, io, r)
    ensures ResolveLink(s, id, io) == Some(r)
  {
    hide ByFid, ByAbsoluteFid, ByPath, ParseLinkTarget, IsName, Disjoint, EntryAt, DestinationOf;
    var data := s.links[id].data;
    TargetIs(data, true, value, FidAbsolute);
    TargetIs(data, true, value, FidRelative);
    TargetIs(data, true, value, PathTarget);
    forall path: Text
      ensures EntryAt(s, value, path) <==> DestinationOf(s, value) == Some(path)
    {
      OneEntry(s, value, path);
    }
  }

  /** A link is resolved to just what its data says it leads to, and not resolved only when that is nothing. */
  lemma ResolvedIff(s: SendSession, id: Text, io: CommitIo, r: LinkResolution)
    requires Disjoint(s) && id in s.links
    ensures ResolveLink(s, id, io) == Some(r) <==> ResolvesTo(s, id, io, r)
  {
    hide Leads, IsName, Disjoint, ResolveLink;
    if ResolveLink(s, id, io) == Some(r) {
      ResolvedLeads(s, id, io, r);
    }
    if ResolvesTo(s, id, io, r) {
      var value: Text :| IsName(value) && Leads(s, s.links[id], value, io, r);
      LeadsIsResolved(s, id, value, io, r);
    }
  }

  ghost predicate ResolvesTo(s: SendSession, id: Text, io: CommitIo, r: LinkResolution)
    requires id in s.links
  {
    io.utf8(id) && exists value: Text :: IsName(value) && Leads(s, s.links[id], value, io, r)
  }

  ghost predicate Leads(s: SendSession, link: StagedLink, value: Text, io: CommitIo, r: LinkResolution) {
    match r
    case HardLink(source) => link.fileType == Link && LeadsToFile(s, link.data, value, source)
    case SymbolicTo(target) =>
      link.fileType != Link && LeadsToPath(s, link.data, value, link.destination, io, target)
  }
}
