/** The executor in both directions, and its coupling to the manager whose actions it is given. */
module TransferFilesystem {
  import opened Bytes
  import opened TransferCommands
  import opened TransferManager
  import SendSessions
  import SendFilesystem
  import SendPublication
  import ReceiveSessions
  import ReceiveFilesystem

  /** The session ids that the executor holds, by direction. */
  datatype Ids = Ids(send: set<Text>, receive: set<Text>)
  {
    function Of(direction: Direction): set<Text> {
      if direction == ToTerminal then send else receive
    }
  }

  /** What the executor expects of every action: authorized commands name their file and path. */
  predicate Executable(action: Action) {
    action.Execute? ==>
      && (action.command.action in {File, Data, EndData} ==> action.command.fileId.Some?)
      && (action.command.action == File ==> action.command.name.Some?)
  }

  /** The action may leave a session of this direction behind. */
  predicate Touches(action: Action, direction: Direction, id: Text) {
    || (action.Execute? && action.direction == direction && action.command.id == id
        && !Closes(direction, action.command))
    || (action.CompleteReceiveListing? && direction == FromTerminal && action.sessionId == id)
  }

  /** The action leaves no session of this direction behind. */
  predicate Removes(action: Action, direction: Direction, id: Text) {
    || action == Abort(id)
    || (action.Execute? && action.direction == direction && action.command.id == id
        && Closes(direction, action.command))
  }

  /** Session ids appear only where they are touched, and are gone where they are removed. */
  ghost predicate Delivered(action: Action, before: Ids, after: Ids) {
    forall direction: Direction, id: Text :: id in after.Of(direction) ==>
      !Removes(action, direction, id) && (id in before.Of(direction) || Touches(action, direction, id))
  }

  ghost predicate DeliveredAll(actions: seq<Action>, before: Ids, after: Ids)
    decreases |actions|
  {
    if actions == [] then before == after else
      var initial, last := actions[..|actions| - 1], actions[|actions| - 1];
      exists between: Ids :: DeliveredAll(initial, before, between) && Delivered(last, between, after)
  }

  /** How the world answers while one action is carried out. */
  datatype ExecutorIo = ExecutorIo(
    stage: SendSessions.StageIo,
    write: SendSessions.WriteIo,
    commit: SendPublication.CommitIo,
    found: Option<ReceiveFilesystem.Found>,
    files: ReceiveFilesystem.FilesIo)

  /** What an action has the executor say. */
  datatype Output =
    | Quiet
    | Replied(reply: Option<SendSessions.Reply>)
    | FinishedWith(outcome: SendPublication.FinishOutcome)
    | Answered(answer: ReceiveFilesystem.Answer)
    | ListingSent(ok: bool, announced: seq<ReceiveSessions.Announcement>)

  type SendTable = map<Text, SendSessions.SendSession>

  /** A send command does to its own session just what staging, writing or finishing does. */
  ghost predicate Sends(l: SendSessions.Limits, before: SendTable, command: FileTransferCommand, io: ExecutorIo,
                        after: SendTable, out: Output)
    requires command.action in {File, Data, EndData} ==> command.fileId.Some?
  {
    match command.action
    case File => SendsFile(l, before, command, io, after, out)
    case Data => SendsData(l, before, command, false, io, after, out)
    case EndData => SendsData(l, before, command, true, io, after, out)
    case Finish =>
      && after == before - {command.id}
      && out == FinishedWith(if command.id in before then SendPublication.FinishOf(before[command.id], io.commit)
                             else SendPublication.NoSession)
    case _ => after == before && out == Quiet
  }

  ghost predicate SendsFile(l: SendSessions.Limits, before: SendTable, command: FileTransferCommand, io: ExecutorIo,
                            after: SendTable, out: Output)
    requires command.fileId.Some?
  {
    var s := if command.id in before then before[command.id] else SendSessions.EMPTY_SESSION;
    && s.reservedBytes <= l.maxSessionBytes
    && var (s', reply) := SendSessions.StageEntry(l, s, command, command.fileId.value, io.stage);
       after == before[command.id := s'] && out == Replied(Some(reply))
  }

  ghost predicate SendsData(l: SendSessions.Limits, before: SendTable, command: FileTransferCommand, completes: bool,
                            io: ExecutorIo,
                            after: SendTable, out: Output)
    requires command.fileId.Some?
  {
    if command.id !in before then after == before && out == Replied(None) else
      var s, id := before[command.id], command.fileId.value;
      && (id in s.files ==> (s.files[id].writer.Some? ==> s.files[id].writer.value.Valid()))
      && var (s', reply) := SendSessions.EntryData(l, s, id, command.data, completes, io.write);
         after == before[command.id := s'] && out == Replied(reply)
  }

  /** Only a Finish changes what is on the disk, and only by publishing its own session in order. */
  ghost predicate SendsToDisk(before: SendTable, command: FileTransferCommand, io: SendPublication.CommitIo,
                              disk: SendPublication.Disk, disk': SendPublication.Disk) {
    if command.action == Finish && command.id in before then
      var s := before[command.id];
      var outcome := SendPublication.FinishOf(s, io);
      var all := outcome in {SendPublication.Published, SendPublication.DirectoryNotFinished};
      && (outcome.IncompleteEntries? || outcome.UnresolvedLink? || outcome.LinkNotPrepared? ==> disk' == disk)
      && SendPublication.PublishedInOrder(s, io, disk, disk', all)
    else disk' == disk
  }

  /** A command touches no other session, and the closing one removes its own. */
  lemma SendsOne(l: SendSessions.Limits, before: SendTable, command: FileTransferCommand, io: ExecutorIo,
                 after: SendTable, out: Output)
    requires command.action in {File, Data, EndData} ==> command.fileId.Some?
    requires Sends(l, before, command, io, after, out)
    ensures after - {command.id} == before - {command.id}
    ensures command.action == Finish ==> command.id !in after
  {
    hide SendSessions.StageEntry, SendSessions.EntryData, SendPublication.FinishOf, SendSessions.StagedWriter.Valid;
  }

  /** What one action does in both directions. */
  ghost predicate CarriedOut(fs: Tables, action: Action, io: ExecutorIo, fs': Tables, out: Output)
    requires Executable(action)
  {
    && fs'.limits == fs.limits && fs'.receiveLimits == fs.receiveLimits
    && match action
    case Execute(direction, quiet, command) =>
      if direction == FromTerminal then
        && fs'.send == fs.send && out.Answered?
        && ReceiveFilesystem.Handles(fs.receiveLimits, fs.receive, command, quiet, io.found, io.files, fs'.receive,
                                     out.answer)
      else fs'.receive == fs.receive && Sends(fs.limits, fs.send, command, io, fs'.send, out)
    case CompleteReceiveListing(id, _) =>
      && fs'.send == fs.send && out.ListingSent?
      && ReceiveFilesystem.CompletesListing(fs.receive, id, io.files.accepts, fs'.receive, out.ok, out.announced)
    case Abort(id) => fs'.send == fs.send - {id} && fs'.receive == fs.receive - {id} && out == Quiet
    case _ => fs' == fs && out == Quiet
  }

  datatype Tables = Tables(
    limits: SendSessions.Limits,
    send: SendTable,
    receiveLimits: ReceiveSessions.ReceiveLimits,
    receive: ReceiveFilesystem.Sessions)
  {
    ghost function SessionIds(): Ids {
      Ids(send.Keys, receive.Keys)
    }
  }

  class TtyTransferFilesystem {
    const send: SendFilesystem.TtyTransferSendFilesystem
    const receive: ReceiveFilesystem.TtyTransferReceiveFilesystem

    ghost predicate Valid()
      reads this, send, receive
    {
      send.Valid() && receive.Valid()
    }

    ghost function View(): Tables
      reads this, send, receive
    {
      Tables(send.limits, send.sessions, receive.limits, receive.sessions)
    }

    constructor (limits: SendSessions.Limits, receiveLimits: ReceiveSessions.ReceiveLimits, disk: SendPublication.Disk)
      requires limits.Valid()
      ensures Valid() && fresh(send) && fresh(receive) && View() == Tables(limits, map[], receiveLimits, map[])
    {
      send := new SendFilesystem.TtyTransferSendFilesystem(limits, disk);
      receive := new ReceiveFilesystem.TtyTransferReceiveFilesystem(receiveLimits);
    }

    /** A command of an approved send session. */
    method ExecuteSend(command: FileTransferCommand, io: ExecutorIo) returns (out: Output)
      requires Valid() && (command.action in {File, Data, EndData} ==> command.fileId.Some?)
      modifies send
      ensures Valid()
      ensures Sends(send.limits, old(send.sessions), command, io, send.sessions, out)
      ensures SendsToDisk(old(send.sessions), command, io.commit, old(send.disk), send.disk)
    {
      hide SendSessions.StageEntry, SendSessions.EntryData, SendPublication.PublishedInOrder, SendPublication.FinishOf,
        SendSessions.SessionOk, ReceiveSessions.ReceiveOk, SendSessions.StagedWriter.Valid;
      out := Quiet;
      match command.action {
        case File =>
          var reply := send.StageFile(command, io.stage);
          out := Replied(Some(reply));
        case Data =>
          var reply := send.WriteFileData(command, false, io.write);
          out := Replied(reply);
        case EndData =>
          var reply := send.WriteFileData(command, true, io.write);
          out := Replied(reply);
        case Finish =>
          var outcome := send.CommitSession(command, io.commit);
          out := FinishedWith(outcome);
        case _ =>
      }
    }

    /** Forget a session in both directions. */
    method AbortBoth(id: Text)
      requires Valid()
      modifies send, receive
      ensures Valid()
      ensures send.sessions == old(send.sessions) - {id} && receive.sessions == old(receive.sessions) - {id}
      ensures send.disk == old(send.disk)
    {
      hide SendSessions.SessionOk, ReceiveSessions.ReceiveOk;
      send.Abort(id);
      receive.Abort(id);
    }

    /** Carry out one action of the manager. */
    method HandleExecutable(action: Action, io: ExecutorIo) returns (out: Output)
      requires Valid() && Executable(action)
      modifies send, receive
      ensures Valid()
      ensures CarriedOut(old(View()), action, io, View(), out)
      ensures if action.Execute? && action.direction == ToTerminal
              then SendsToDisk(old(send.sessions), action.command, io.commit, old(send.disk), send.disk)
              else send.disk == old(send.disk)
    {
      hide SendsToDisk;
      hide SendSessions.SessionOk, ReceiveSessions.ReceiveOk, ReceiveFilesystem.Handles;
      hide ReceiveFilesystem.CompletesListing, Sends;
      out := Quiet;
      match action {
        case Execute(direction, quiet, command) =>
          if direction == FromTerminal {
            var answer := receive.HandleAuthorized(command, quiet, io.found, io.files);
            out := Answered(answer);
          } else {
            out := ExecuteSend(command, io);
          }
        case CompleteReceiveListing(id, _) =>
          var ok, announced := receive.CompleteListing(id, io.files.accepts);
          out := ListingSent(ok, announced);
        case Abort(id) => AbortBoth(id);
        case _ =>
      }
    }

    /** Carry out actions in order. */
    method Deliver(actions: seq<Action>, ios: seq<ExecutorIo>)
      requires Valid() && |ios| == |actions| && forall k :: 0 <= k < |actions| ==> Executable(actions[k])
      modifies send, receive
      ensures Valid()
      ensures DeliveredAll(actions, old(View()).SessionIds(), View().SessionIds())
    {
      hide Delivered, Executable, CarriedOut;
      var k := 0;
      while k < |actions|
        invariant 0 <= k <= |actions| && Valid()
        invariant DeliveredAll(actions[..k], old(View()).SessionIds(), View().SessionIds())
      {
        ghost var between := View();
        var out := HandleExecutable(actions[k], ios[k]);
        CarriedOutDelivers(between, actions[k], ios[k], View(), out);
        assert actions[..k + 1][..k] == actions[..k];
        k := k + 1;
      }
      assert actions[..k] == actions;
    }
  }

  lemma CompletesOne(before: ReceiveFilesystem.Sessions, id: Text, accepts: nat -> bool,
                     after: ReceiveFilesystem.Sessions, ok: bool,
                     announced: seq<ReceiveSessions.Announcement>)
    requires ReceiveFilesystem.CompletesListing(before, id, accepts, after, ok, announced)
    ensures forall other :: other in after ==> other in before || other == id
  {}

  /** What an action does to the tables, it does to the ids. */
  lemma CarriedOutDelivers(fs: Tables, action: Action, io: ExecutorIo, fs': Tables, out: Output)
    requires Executable(action) && CarriedOut(fs, action, io, fs', out)
    ensures Delivered(action, fs.SessionIds(), fs'.SessionIds())
  {
    hide ReceiveFilesystem.Handles, ReceiveFilesystem.CompletesListing, Sends;
    match action {
      case Execute(direction, quiet, command) =>
        if direction == FromTerminal {
          ReceiveFilesystem.HandlesOne(fs.receiveLimits, fs.receive, command, quiet, io.found, io.files,
                                       fs'.receive, out.answer);
        } else {
          SendsOne(fs.limits, fs.send, command, io, fs'.send, out);
        }
        CommandDelivers(action, fs.send, fs'.send, fs.receive, fs'.receive);
      case CompleteReceiveListing(id, _) =>
        CompletesOne(fs.receive, id, io.files.accepts, fs'.receive, out.ok, out.announced);
      case _ =>
    }
  }

  /** A command that changes only its own session of its own direction is delivered. */
  lemma CommandDelivers<S, R>(action: Action, send: map<Text, S>, send': map<Text, S>, receive: map<Text, R>,
                              receive': map<Text, R>)
    requires action.Execute?
    requires action.direction == ToTerminal ==>
               receive' == receive && send' - {action.command.id} == send - {action.command.id}
    requires action.direction == FromTerminal ==>
               send' == send && receive' - {action.command.id} == receive - {action.command.id}
    requires action.direction == ToTerminal && action.command.action == Finish ==> action.command.id !in send'
    requires action.direction == FromTerminal && action.command.action == Finished ==> action.command.id !in receive'
    ensures Delivered(action, Ids(send.Keys, receive.Keys), Ids(send'.Keys, receive'.Keys))
  {
    var id := action.command.id;
    OutsideSame(send, send', id);
    OutsideSame(receive, receive', id);
  }

  lemma OutsideSame<V>(before: map<Text, V>, after: map<Text, V>, id: Text)
    ensures after - {id} == before - {id} ==> forall other :: other in after && other != id ==> other in before
  {
    if after - {id} == before - {id} {
      forall other | other in after && other != id
        ensures other in before
      {
        assert other in after - {id};
      }
    }
  }
}
