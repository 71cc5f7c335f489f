/** The commands of an approved send session, as the executor carries them out, up to its Finish. */
module SendDeliveries {
  import opened Bytes
  import opened TransferCommands
  import opened SendSessions
  import opened SendBudget
  import opened SendRuns
  import opened SendContents
  import opened SendPublication
  import opened SendLinks
  import opened SendFinish
  import opened TransferFilesystem

  /** The command stages or carries data for an entry of this session. */
  predicate Feeds(command: FileTransferCommand, id: Text) {
    command.id == id && command.action in {File, FileTransferAction.Data, EndData}
  }

  predicate Named(command: FileTransferCommand) {
    command.action in {File, FileTransferAction.Data, EndData} ==> command.fileId.Some?
  }

  /** What the command does to its session: only the last data of an entry completes it. */
  function EventOf(command: FileTransferCommand, io: ExecutorIo): Event
    requires command.fileId.Some?
  {
    if command.action == File then Stage(command, command.fileId.value, io.stage)
    else Event.Data(command.fileId.value, command.data, command.action == EndData, io.write)
  }

  /** One command: its world, and whose it is. */
  datatype Sent = Sent(command: FileTransferCommand, io: ExecutorIo, out: Output)

  /** The commands that feed a session, in the order they came. */
  function EventsFor(sent: seq<Sent>, id: Text): seq<Event>
    requires forall k :: 0 <= k < |sent| ==> Named(sent[k].command)
  {
    if sent == [] then [] else
      var last := sent[|sent| - 1];
      FedNames(last.command, id);
      EventsFor(sent[..|sent| - 1], id) + if Feeds(last.command, id) then [EventOf(last.command, last.io)] else []
  }

  /** Commands of any sessions, carried out one after another; the one with this id is not finished among them. */
  ghost predicate CarriesOut(l: Limits, tables: seq<SendTable>, sent: seq<Sent>, id: Text) {
    && |tables| == |sent| + 1 && id !in tables[0]
    && (forall k :: 0 <= k < |sent| ==> Named(sent[k].command))
    && forall k :: 0 <= k < |sent| ==> CarriesOutOne(l, tables[k], sent[k], tables[k + 1], id)
  }

  ghost predicate CarriesOutOne(l: Limits, before: SendTable, sent: Sent, after: SendTable, id: Text)
    requires Named(sent.command)
  {
    && Sends(l, before, sent.command, sent.io, after, sent.out)
    && !(sent.command.id == id && sent.command.action == Finish)
  }

  function SessionIn(table: SendTable, id: Text): SendSession {
    if id in table then table[id] else EMPTY_SESSION
  }

  lemma StagedIsStep(l: Limits, before: SendTable, sent: Sent, after: SendTable, id: Text)
    requires sent.command.id == id && sent.command.action == File && sent.command.fileId.Some?
    requires SendsFile(l, before, sent.command, sent.io, after, sent.out) && SessionOk(l, SessionIn(before, id))
    ensures SessionIn(after, id) == Step(l, SessionIn(before, id), EventOf(sent.command, sent.io))
  {
    hide Step, SessionOk, StageEntry;
    StepStages(l, SessionIn(before, id), sent.command, sent.command.fileId.value, sent.io.stage);
  }

  lemma WrittenIsStep(l: Limits, before: SendTable, sent: Sent, completes: bool, after: SendTable, id: Text)
    requires sent.command.id == id && sent.command.fileId.Some?
    requires sent.command.action == if completes then EndData else FileTransferAction.Data
    requires SendsData(l, before, sent.command, completes, sent.io, after, sent.out)
    requires SessionOk(l, SessionIn(before, id))
    ensures SessionIn(after, id) == Step(l, SessionIn(before, id), EventOf(sent.command, sent.io))
  {
    hide Step, SessionOk, EntryData, StagedWriter.Valid;
    var fileId, data := sent.command.fileId.value, sent.command.data;
    StepWrites(l, SessionIn(before, id), fileId, data, completes, sent.io.write);
    NothingIsFed(fileId, l, data, completes, sent.io.write);
  }

  /** A command that feeds the session is a step of its run. */
  lemma FedIsStep(l: Limits, before: SendTable, sent: Sent, after: SendTable, id: Text)
    requires Named(sent.command) && Feeds(sent.command, id)
    requires CarriesOutOne(l, before, sent, after, id) && SessionOk(l, SessionIn(before, id))
    ensures SessionIn(after, id) == Step(l, SessionIn(before, id), EventOf(sent.command, sent.io))
  {
    hide Step, SessionOk, SendsFile, SendsData, EventOf;
    match sent.command.action {
      case File => StagedIsStep(l, before, sent, after, id);
      case Data => WrittenIsStep(l, before, sent, false, after, id);
      case EndData => WrittenIsStep(l, before, sent, true, after, id);
    }
  }

  lemma NothingIsFed(id: Text, l: Limits, data: seq<byte>, completes: bool, io: WriteIo)
    ensures EntryData(l, EMPTY_SESSION, id, data, completes, io).0 == EMPTY_SESSION
  {
    hide FileData, LinkData;
  }

  lemma OtherIsKept(l: Limits, before: SendTable, sent: Sent, after: SendTable, id: Text)
    requires Named(sent.command) && CarriesOutOne(l, before, sent, after, id) && !Feeds(sent.command, id)
    ensures SessionIn(after, id) == SessionIn(before, id)
  {
    hide StageEntry, EntryData;
    SendsOne(l, before, sent.command, sent.io, after, sent.out);
    if sent.command.id != id {
      assert id in after <==> id in after - {sent.command.id};
      assert id in before <==> id in before - {sent.command.id};
    }
  }

  /** Whatever other sessions do in between, a session is what the commands that feed it make of it. */
  lemma {:induction false} SessionIsItsRun(l: Limits, tables: seq<SendTable>, sent: seq<Sent>, id: Text)
    requires l.Valid() && CarriesOut(l, tables, sent, id)
    ensures SessionIn(tables[|sent|], id) == After(l, EventsFor(sent, id))
    decreases |sent|
  {
    hide Step, SessionOk, CarriesOutOne, EventOf;
    if sent == [] {
      NoLinks(l, id);
    } else {
      var n := |sent| - 1;
      var last := sent[n];
      SessionIsItsRun(l, tables[..n + 1], sent[..n], id);
      assert CarriesOutOne(l, tables[n], sent[n], tables[n + 1], id);
      if Feeds(last.command, id) {
        FedIsStep(l, tables[n], last, tables[n + 1], id);
        AfterSnoc(l, EventsFor(sent[..n], id), EventOf(last.command, last.io));
      } else {
        OtherIsKept(l, tables[n], last, tables[n + 1], id);
        assert EventsFor(sent, id) == EventsFor(sent[..n], id);
      }
    }
  }

  lemma FedNames(command: FileTransferCommand, id: Text)
    requires Named(command)
    ensures Feeds(command, id) ==> command.fileId.Some?
  {}

  /* ---- Up to Finish ---- */

  /** The commands were carried out, and then the session was finished, and all of it was published. */
  ghost predicate Finishes(l: Limits, tables: seq<SendTable>, sent: seq<Sent>, finish: Sent, after: SendTable,
                           disk: Disk, disk': Disk) {
    && l.Valid() && finish.command.action == Finish && CarriesOut(l, tables, sent, finish.command.id)
    && Sends(l, tables[|sent|], finish.command, finish.io, after, finish.out)
    && SendsToDisk(tables[|sent|], finish.command, finish.io.commit, disk, disk')
    && finish.out == FinishedWith(Published)
  }

  lemma FinishIs(l: Limits, tables: seq<SendTable>, sent: seq<Sent>, finish: Sent, after: SendTable, disk: Disk,
                 disk': Disk)
    requires Finishes(l, tables, sent, finish, after, disk, disk')
    ensures var s := After(l, EventsFor(sent, finish.command.id));
            && FinishOf(s, finish.io.commit) == Published
            && PublishedInOrder(s, finish.io.commit, disk, disk', true)
  {
    hide CarriesOutOne, After, FinishOf, PublishedInOrder, EventsFor, Sends, SendsToDisk;
    SessionIsItsRun(l, tables, sent, finish.command.id);
    FinishedIs(l, tables[|sent|], finish, after, disk, disk');
  }

  lemma FinishedIs(l: Limits, before: SendTable, finish: Sent, after: SendTable, disk: Disk, disk': Disk)
    requires finish.command.action == Finish && finish.out == FinishedWith(Published)
    requires Sends(l, before, finish.command, finish.io, after, finish.out)
    requires SendsToDisk(before, finish.command, finish.io.commit, disk, disk')
    ensures FinishOf(SessionIn(before, finish.command.id), finish.io.commit) == Published
    ensures PublishedInOrder(SessionIn(before, finish.command.id), finish.io.commit, disk, disk', true)
  {
    hide FinishOf, PublishedInOrder, SendsFile, SendsData;
  }

  /**
   * From protocol commands to the disk: whatever other sessions do in between, a Finish that is
   * answered by success leaves, where the path of the file's own command was resolved to, exactly
   * what its data commands carried, unless a later entry of the session goes to the same place.
   */
  lemma SentFileIsPublished(l: Limits, tables: seq<SendTable>, sent: seq<Sent>, finish: Sent, after: SendTable,
                            disk: Disk, disk': Disk, id: Text)
    returns (staged: nat, path: Text)
    requires Finishes(l, tables, sent, finish, after, disk, disk')
    requires id in SessionIn(tables[|sent|], finish.command.id).files
    requires GoesOutLast(SessionIn(tables[|sent|], finish.command.id), PublishFile(id))
    ensures var events := EventsFor(sent, finish.command.id);
            && staged < |events| && GoesTo(events[staged], id, path) && HoldsFile(events, staged, id, disk', path)
            && Ended(events[staged + 1..], id, IsZlib(events[staged].command), true)
  {
    hide CarriesOutOne, After, FinishOf, PublishedInOrder, EventsFor, IsItsData, Ended, GoesOutLast, Sends;
    hide SendsToDisk;
    SessionIsItsRun(l, tables, sent, finish.command.id);
    FinishIs(l, tables, sent, finish, after, disk, disk');
    var events := EventsFor(sent, finish.command.id);
    staged := FinishPublishesTheData(l, events, finish.io.commit, disk, disk', id);
    path := After(l, events).files[id].destination;
  }
}
