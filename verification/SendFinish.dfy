/** From data commands to published files: a whole send session, from its first command to Finish. */
module SendFinish {
  import opened Bytes
  import opened DeltaPatcher
  import opened DeltaMeaning
  import opened DeltaFormat
  import opened TransferCommands
  import opened SendSessions
  import opened SendBudget
  import opened SendRuns
  import opened SendContents
  import opened SendPublication
  import opened SendLinks

  /** What a successful Finish leaves at the destination of a file staged by command `staged`. */
  ghost predicate IsItsData(events: seq<Event>, staged: nat, id: Text, content: seq<byte>)
    requires staged < |events| && events[staged].Stage?
  {
    var command := events[staged].command;
    var received := Received(events[staged + 1..], id, IsZlib(command));
    match BaseOf(command, events[staged].stageIo)
    case None => content == received
    case Some(base) =>
      base.Valid() && exists ops: seq<Op> :: IsDelta(base, ops, received) && content == Meaning(base, ops)
  }

  lemma CompletedContent(l: Limits, events: seq<Event>, id: Text) returns (staged: nat)
    requires l.Valid() && id in After(l, events).files && After(l, events).files[id].temporary.Some?
    ensures staged < |events| && events[staged].Stage? && events[staged].id == id
    ensures IsItsData(events, staged, id, After(l, events).files[id].Content())
    ensures StagedAs(After(l, events).files[id], events[staged].command, events[staged].stageIo)
    ensures Ended(events[staged + 1..], id, IsZlib(events[staged].command), true)
  {
    hide After, SessionOk, IsDelta, Meaning, Received, Run, Ended;
    staged := FileHoldsItsData(l, events, id);
    var file := After(l, events).files[id];
    CompleteIsClosed(l, After(l, events), id);
    var command, io := events[staged].command, events[staged].stageIo;
    var base := BaseOf(command, io);
    if base.Some? {
      var ops := CompletedDelta(file, base.value, Received(events[staged + 1..], id, IsZlib(command)));
    }
  }

  lemma CompleteIsClosed(l: Limits, s: SendSession, id: Text)
    requires SessionOk(l, s) && id in s.files && s.files[id].temporary.Some?
    ensures s.files[id].writer.None? && s.files[id].Content() == s.files[id].temporary.value
    ensures s.files[id].expectedSize.Some? ==> |s.files[id].Content()| == s.files[id].expectedSize.value
  {
    hide BudgetOk;
  }

  /** A path holds what the data commands of a file carried, of the declared length if one was declared. */
  ghost predicate HoldsFile(events: seq<Event>, staged: nat, id: Text, disk: Disk, path: Text)
    requires staged < |events| && events[staged].Stage?
  {
    && path in disk && disk[path].FileContent? && IsItsData(events, staged, id, disk[path].bytes)
    && (events[staged].command.size.Some? ==> |disk[path].bytes| == events[staged].command.size.value)
  }

  /** A file staged by this command goes where the path of that command was resolved to. */
  predicate GoesTo(e: Event, id: Text, path: Text) {
    e.Stage? && e.id == id && e.command.fileType in {None, Some(Regular)} && e.stageIo.destination == Some(path)
  }

  /**
   * A Finish that goes through leaves, where the path of a file's command was resolved to, exactly
   * what the data commands for the file carried, of the length that the command declared if it did,
   * unless a link or a later file replaces it; and the last of those commands had completed the file.
   */
  lemma FinishPublishesTheData(l: Limits, events: seq<Event>, io: CommitIo, disk: Disk, disk': Disk, id: Text)
    returns (staged: nat)
    requires l.Valid() && id in After(l, events).files && GoesOutLast(After(l, events), PublishFile(id))
    requires FinishOf(After(l, events), io) == Published && PublishedInOrder(After(l, events), io, disk, disk', true)
    ensures staged < |events| && events[staged].Stage?
    ensures var f := After(l, events).files[id];
            && GoesTo(events[staged], id, f.destination) && HoldsFile(events, staged, id, disk', f.destination)
            && disk'[f.destination] == FileContent(f.Content())
    ensures Ended(events[staged + 1..], id, IsZlib(events[staged].command), true)
    ensures var s := After(l, events);
            forall link :: link in s.links && s.links[link].fileType == Link && GoesOutLast(s, PublishLink(link)) ==>
              PublishesSomeFile(s, link, disk')
  {
    hide After, SessionOk, PublishedInOrder, GoesOutLast, IsItsData, ResolveLink, Ended;
    var s := After(l, events);
    PublishedLast(s, io, disk, disk', PublishFile(id));
    assert s.files[id].temporary.Some?;
    staged := CompletedContent(l, events, id);
    CompleteIsClosed(l, s, id);
    forall link | link in s.links && s.links[link].fileType == Link && GoesOutLast(s, PublishLink(link))
      ensures PublishesSomeFile(s, link, disk')
    {
      PublishedLast(s, io, disk, disk', PublishLink(link));
      HardLinksStayInside(s, link, io);
    }
  }

  ghost predicate PublishesSomeFile(s: SendSession, link: Text, disk': Disk)
    requires link in s.links
  {
    && s.links[link].destination in disk'
    && exists source :: source in s.files && disk'[s.links[link].destination] == FileContent(s.files[source].Content())
  }

  /* ---- Links ---- */

  /** What a link leads to is what was published for it. */
  lemma PublishedAsResolved(l: Limits, s: SendSession, io: CommitIo, id: Text) returns (r: LinkResolution)
    requires SessionOk(l, s) && id in s.links && FinishOf(s, io) == Published
    ensures ResolvesTo(s, id, io, r)
    ensures LinkEntry(s, id, io) == match r
                                    case HardLink(source) =>
                                      if source in s.files then FileEntry(s, source) else FileContent([])
                                    case SymbolicTo(target) => SymbolicLink(target)
    ensures forall source :: source in s.files ==> s.files[source].temporary.Some?
  {
    hide Leads, IsName, ResolvesTo;
    hide EachOk, BudgetOk;
    r := ResolveLink(s, id, io).value;
    hide ResolveLink;
    ResolvedIff(s, id, io, r);
  }

  /** A symbolic link at `path` leads where the data that was sent for it says. */
  ghost predicate HoldsSymlink(s: SendSession, data: seq<byte>, disk: Disk, path: Text, io: CommitIo) {
    && path in disk && disk[path].SymbolicLink?
    && exists value: Text :: IsName(value) && LeadsToPath(s, data, value, path, io, disk[path].target)
  }

  /** A hard link at `path` holds the content of the file whose id the data that was sent for it names. */
  ghost predicate HoldsHardLink(s: SendSession, events: seq<Event>, data: seq<byte>, disk: Disk, path: Text) {
    exists source: Text, staged: nat ::
      IsName(source) && LeadsToFile(s, data, source, source)
      && staged < |events| && events[staged].Stage? && events[staged].id == source
      && HoldsFile(events, staged, source, disk, path)
  }

  /**
   * A Finish that goes through leaves every link, where the path of its command was resolved to, as
   * the data sent for it says: a symbolic link to the path or entry it names, or the content of the
   * file it names, which is what that file's own data commands carried.
   */
  lemma FinishPublishesTheLink(l: Limits, events: seq<Event>, io: CommitIo, disk: Disk, disk': Disk, id: Text)
    returns (staged: nat, path: Text)
    requires l.Valid() && id in After(l, events).links && GoesOutLast(After(l, events), PublishLink(id))
    requires FinishOf(After(l, events), io) == Published && PublishedInOrder(After(l, events), io, disk, disk', true)
    ensures staged < |events| && events[staged].Stage? && events[staged].id == id
    ensures events[staged].stageIo.destination == Some(path) && LinkEnded(events[staged + 1..], id, true)
    ensures var s, data := After(l, events), Joined(events[staged + 1..], id);
            match events[staged].command.fileType
            case Some(Symlink) => HoldsSymlink(s, data, disk', path, io)
            case Some(Link) => HoldsHardLink(s, events, data, disk', path)
            case _ => false
  {
    hide After, SessionOk, PublishedInOrder, GoesOutLast, IsItsData, LinkEntry, FinishOf, Joined, LinkEnded, IsName;
    AllAreComplete(After(l, events), io);
    hide LeadsToPath, LeadsToFile;
    var s := After(l, events);
    PublishedLast(s, io, disk, disk', PublishLink(id));
    staged := LinkHoldsItsData(l, events, id);
    path := s.links[id].destination;
    var r := PublishedAsResolved(l, s, io, id);
    if s.links[id].fileType == Link {
      var source := HardLinked(s, id, io, r);
      var published := CompletedContent(l, events, source);
      CompleteIsClosed(l, s, source);
      assert HoldsFile(events, published, source, disk', path);
    } else {
      assert r.SymbolicTo?;
    }
  }

  lemma AllAreComplete(s: SendSession, io: CommitIo)
    requires FinishOf(s, io) == Published
    ensures forall id :: id in s.links ==> s.links[id].complete
  {
    hide AllResolved, AllPrepared;
  }

  /** The link's data leads somewhere, and it could be prepared there. */
  ghost predicate CanGoOut(s: SendSession, id: Text, io: CommitIo)
    requires id in s.links
  {
    s.links[id].complete && io.prepareOk(id) && exists r: LinkResolution :: ResolvesTo(s, id, io, r)
  }

  /** A Finish goes through exactly when every entry is complete, every link leads somewhere, and nothing fails. */
  lemma FinishIff(s: SendSession, io: CommitIo)
    requires Disjoint(s)
    ensures FinishOf(s, io) == Published <==>
              && (forall id :: id in s.files ==> s.files[id].temporary.Some? && io.publishFile(id) == Done)
              && (forall id :: id in s.links ==> CanGoOut(s, id, io) && io.publishLink(id) == Done)
              && (forall id :: id in s.directories ==> io.directoryOk(id))
  {
    hide ResolveLink, ResolvesTo, Disjoint;
    forall id | id in s.links
      ensures ResolveLink(s, id, io).Some? <==> exists r: LinkResolution :: ResolvesTo(s, id, io, r)
    {
      forall r: LinkResolution
        ensures ResolveLink(s, id, io) == Some(r) <==> ResolvesTo(s, id, io, r)
      {
        ResolvedIff(s, id, io, r);
      }
      if ResolveLink(s, id, io).Some? {
        assert ResolvesTo(s, id, io, ResolveLink(s, id, io).value);
      }
    }
  }

  lemma HardLinked(s: SendSession, id: Text, io: CommitIo, r: LinkResolution) returns (source: Text)
    requires id in s.links && s.links[id].fileType == Link && ResolvesTo(s, id, io, r)
    ensures r == HardLink(source) && source in s.files && IsName(source)
    ensures LeadsToFile(s, s.links[id].data, source, source)
  {
    hide IsName, ByFid, ByAbsoluteFid, LeadsToPath;
    source :| IsName(source) && Leads(s, s.links[id], source, io, r);
  }
}
