/** When a command starts, moves or ends a session, and what its peer is then told, in plain conditions. */
module SessionCommands {
  import opened Bytes
  import opened TransferCommands
  import opened TransferManager
  import opened ConsentSafety

  /* ---- Path names ---- */

  predicate NoSlash(path: seq<byte>, i: nat, j: nat)
    requires j <= |path|
  {
    forall t :: i <= t < j ==> path[t] != SLASH
  }

  /** `path[i..j]` lies between two slashes or ends of the path. */
  predicate PartAt(path: seq<byte>, i: nat, j: nat) {
    && i <= j <= |path| && NoSlash(path, i, j)
    && (i == 0 || path[i - 1] == SLASH) && (j == |path| || path[j] == SLASH)
  }

  ghost predicate HasPart(path: seq<byte>, part: seq<byte>) {
    exists i: nat, j: nat :: PartAt(path, i, j) && path[i..j] == part
  }

  function FirstSlash(path: seq<byte>): nat {
    if path == [] || path[0] == SLASH then 0 else 1 + FirstSlash(path[1..])
  }

  lemma {:induction false} FirstSlashIs(path: seq<byte>)
    ensures var k := FirstSlash(path);
            k <= |path| && NoSlash(path, 0, k) && (k < |path| ==> path[k] == SLASH)
  {
    if path != [] && path[0] != SLASH {
      FirstSlashIs(path[1..]);
      var k := 1 + FirstSlash(path[1..]);
      assert forall t :: 1 <= t < k ==> path[t] == path[1..][t - 1];
    }
  }

  /** The first part ends at the first slash, and every other part is one of what follows it. */
  lemma HeadPart(path: seq<byte>, i: nat, j: nat)
    requires PartAt(path, i, j)
    ensures FirstSlash(path) <= |path|
    ensures var k := FirstSlash(path);
            (i == 0 && j == k)
            || (k < i && PartAt(path[k + 1..], i - k - 1, j - k - 1)
                && path[k + 1..][i - k - 1..j - k - 1] == path[i..j])
  {
    hide FirstSlash, NoSlash;
    FirstSlashIs(path);
    var k := FirstSlash(path);
    SlashOutside(path, i, j, k);
    SlashOutside(path, 0, k, j);
    if i > 0 {
      SlashOutside(path, 0, k, i - 1);
      NoSlashAfter(path, k + 1, i, j);
    }
  }

  lemma SlashOutside(path: seq<byte>, i: nat, j: nat, k: nat)
    requires j <= |path| && NoSlash(path, i, j)
    ensures k < |path| && path[k] == SLASH ==> !(i <= k < j)
  {}

  lemma NoSlashAfter(path: seq<byte>, k: nat, i: nat, j: nat)
    requires k <= i <= j <= |path| && NoSlash(path, i, j)
    ensures NoSlash(path[k..], i - k, j - k) && path[k..][i - k..j - k] == path[i..j]
  {
    assert forall t :: i - k <= t < j - k ==> path[k..][t] == path[t + k];
  }

  lemma TailPart(path: seq<byte>, k: nat, i: nat, j: nat)
    requires 0 < k <= |path| && path[k - 1] == SLASH && PartAt(path[k..], i, j)
    ensures PartAt(path, i + k, j + k) && path[i + k..j + k] == path[k..][i..j]
  {
    assert forall t :: i + k <= t < j + k ==> path[t] == path[k..][t - k];
  }

  lemma NoSlashIn(path: seq<byte>, k: nat)
    requires k <= |path| && NoSlash(path, 0, k)
    ensures SLASH !in path[..k]
  {}

  /** Splitting at slashes yields just what lies between them. */
  lemma {:induction false} SplitParts(path: seq<byte>, part: seq<byte>)
    ensures part in Split(path, SLASH) <==> HasPart(path, part)
    decreases |path|
  {
    hide Split, NoSlash, FirstSlash;
    FirstSlashIs(path);
    var k := FirstSlash(path);
    assert PartAt(path, 0, k);
    NoSlashIn(path, k);
    if k == |path| {
      SplitWhole(path, SLASH);
      assert path[0..k] == path;
      if HasPart(path, part) {
        var i: nat, j: nat :| PartAt(path, i, j) && path[i..j] == part;
        HeadPart(path, i, j);
      }
    } else {
      var rest := path[k + 1..];
      assert path == path[..k] + [SLASH] + rest;
      SplitAt(path[..k], SLASH, rest);
      SplitWhole(path[..k], SLASH);
      SplitParts(rest, part);
      assert path[0..k] == path[..k];
      if HasPart(path, part) {
        var i: nat, j: nat :| PartAt(path, i, j) && path[i..j] == part;
        HeadPart(path, i, j);
      }
      if HasPart(rest, part) {
        var i: nat, j: nat :| PartAt(rest, i, j) && rest[i..j] == part;
        TailPart(path, k + 1, i, j);
      }
    }
  }

  /** A protocol path is neither empty nor too long, holds no NUL, and has names between its slashes. */
  ghost predicate GoodPath(path: Text) {
    && 0 < |path| <= 4096 && 0 !in path
    && forall i: nat, j: nat :: PartAt(path, i, j) ==> GoodName(path, i, j)
  }

  predicate GoodName(path: Text, i: nat, j: nat) {
    i <= j <= |path| && j - i <= 255 && path[i..j] != [46] && path[i..j] != [46, 46]
  }

  lemma PathIff(path: Text)
    ensures ValidProtocolPath(path) <==> GoodPath(path)
  {
    hide Split, NoSlash;
    forall part: seq<byte>
      ensures part in Split(path, SLASH) <==> HasPart(path, part)
    {
      SplitParts(path, part);
    }
    if ValidProtocolPath(path) {
      forall i: nat, j: nat | PartAt(path, i, j)
        ensures GoodName(path, i, j)
      {
        assert HasPart(path, path[i..j]);
        assert ValidPathPart(path[i..j]);
      }
    }
    if GoodPath(path) {
      forall part: seq<byte> | HasPart(path, part)
        ensures ValidPathPart(part)
      {
        var i: nat, j: nat :| PartAt(path, i, j) && path[i..j] == part;
        assert GoodName(path, i, j);
      }
    }
  }

  /* ---- Replies ---- */

  /** One status, unless the peer asked for quiet: at 1 only errors are spoken, from 2 on nothing is. */
  predicate Tells(actions: seq<Action>, id: Text, fileId: Option<Text>, status: StatusText, quiet: byte,
                  isError: bool) {
    actions == if quiet == 0 || (quiet == 1 && isError) then [Write(id, fileId, status)] else []
  }

  lemma ResponseTells(id: Text, fileId: Option<Text>, status: StatusText, quiet: byte, isError: bool)
    ensures Tells(StatusResponse(id, fileId, status, quiet, isError), id, fileId, status, quiet, isError)
  {}

  /* ---- Starting ---- */

  /** A free id, a free slot, and for a receive session a path count of at most 256 where that is supported. */
  predicate Startable(m: Manager, command: FileTransferCommand) {
    && command.id !in m.sessions && |m.sessions| < 16
    && (command.action == Receive ==>
          m.receiveSupported && command.size.Some? && command.size.value <= 256)
  }

  /** A refusal names a reason that there is. */
  predicate StartRefusal(m: Manager, command: FileTransferCommand, status: StatusText) {
    match status
    case ReceiveUnsupported => command.action == Receive && !m.receiveSupported
    case SessionExists => command.id in m.sessions
    case TooManySessions => |m.sessions| >= 16
    case MissingPathCount => command.action == Receive && command.size.None?
    case TooManyPaths => command.action == Receive && command.size.Some? && command.size.value > 256
    case _ => false
  }

  /** The new session: prompted for at once unless it has paths to collect. */
  predicate Started(m: Manager, command: FileTransferCommand, m': Manager, actions: seq<Action>) {
    var direction := if command.action == Receive then FromTerminal else ToTerminal;
    var expected := if command.action == Receive && command.size.Some? then command.size.value else 0;
    && m' == m.(sessions := m.sessions[command.id := TransferSession(
                  direction, if expected > 0 then CollectReceivePaths else AwaitApproval, command.quiet,
                  m.nextRequestId, expected, [])],
                nextRequestId := NextToken(m.nextRequestId))
    && actions == if expected > 0 then [] else [RequestApproval(m.nextRequestId, command.id, direction, [])]
  }

  /** A start command starts a session exactly when it can, and is else answered by a reason why not. */
  lemma StartIff(m: Manager, command: FileTransferCommand)
    requires command.action in {Send, Receive}
    ensures var (m', actions) := HandleCommand(m, command);
            if Startable(m, command) then Started(m, command, m', actions)
            else m' == m && exists status: StatusText ::
                              StartRefusal(m, command, status)
                              && Tells(actions, command.id, command.fileId, status, command.quiet, true)
  {
    hide Spoken, StatusResponse, Tells;
    var actions := HandleCommand(m, command).1;
    if !Startable(m, command) {
      var status :=
        if command.action == Receive && !m.receiveSupported then ReceiveUnsupported
        else if command.id in m.sessions then SessionExists
        else if |m.sessions| >= 16 then TooManySessions
        else if command.size.None? then MissingPathCount else TooManyPaths;
      ResponseTells(command.id, command.fileId, status, command.quiet, true);
      assert StartRefusal(m, command, status);
    }
  }

  /* ---- Live sessions ---- */

  /** A path request that a collecting session takes: a file with a good path and an id it does not have yet. */
  ghost predicate NewRequest(session: TransferSession, command: FileTransferCommand) {
    && command.action == File && command.fileId.Some? && command.name.Some? && GoodPath(command.name.value)
    && forall k :: 0 <= k < |session.receiveRequests| ==> session.receiveRequests[k].fileId != command.fileId
  }

  /** A command that an approved session hands over: a named file, data for one, or the end of its direction. */
  ghost predicate HandedOver(session: TransferSession, command: FileTransferCommand) {
    match command.action
    case File => command.fileId.Some? && command.name.Some? && GoodPath(command.name.value)
    case Data => command.fileId.Some?
    case EndData => command.fileId.Some?
    case Finish => session.direction == ToTerminal
    case Finished => session.direction == FromTerminal
    case _ => false
  }

  /** What ends a session early: its staging is dropped first if it was approved, then its peer is told. */
  predicate Drops(actions: seq<Action>, id: Text, session: TransferSession, fileId: Option<Text>, status: StatusText,
                  isError: bool) {
    if session.phase == Approved then
      |actions| >= 1 && actions[0] == Abort(id) && Tells(actions[1..], id, fileId, status, session.quiet, isError)
    else Tells(actions, id, fileId, status, session.quiet, isError)
  }

  lemma DropsAre(id: Text, session: TransferSession, fileId: Option<Text>, status: StatusText, isError: bool)
    ensures Drops(AbortIfApproved(id, session) + StatusResponse(id, fileId, status, session.quiet, isError), id,
                  session,
                  fileId, status, isError)
  {
    var response := StatusResponse(id, fileId, status, session.quiet, isError);
    assert ([Abort(id)] + response)[1..] == response && [] + response == response;
  }

  function Without(m: Manager, id: Text): Manager {
    m.(sessions := m.sessions - {id})
  }

  /** One request more, and a prompt with the names of all once there are as many as were announced. */
  ghost predicate Collected(session: TransferSession, command: FileTransferCommand, slot: Option<TransferSession>,
                            actions: seq<Action>) {
    var requests := session.receiveRequests + [command];
    var whole := |requests| == session.expectedPaths;
    && slot == Some(session.(receiveRequests := requests, phase := if whole then AwaitApproval
                             else CollectReceivePaths))
    && if whole then
         |actions| == 1 && actions[0].RequestApproval? && actions[0].requestId == session.requestId
         && actions[0].sessionId == command.id && actions[0].direction == session.direction
         && actions[0].paths == PathsOf(requests)
       else actions == []
  }

  /** What any command but a start or a cancel does to a live session. */
  ghost predicate Continues(session: TransferSession, command: FileTransferCommand, slot: Option<TransferSession>,
                            actions: seq<Action>) {
    if session.phase == CollectReceivePaths && NewRequest(session, command) then
      Collected(session, command, slot, actions)
    else if session.phase == Approved && HandedOver(session, command) then
      && actions == [Execute(session.direction, session.quiet, command)]
      && slot == if command.action in {Finish, Finished} then None else Some(session)
    else slot == None && Drops(actions, command.id, session, command.fileId, WhyDropped(session, command), true)
  }

  ghost function WhyDropped(session: TransferSession, command: FileTransferCommand): StatusText {
    match session.phase
    case CollectReceivePaths =>
      if command.action == File && command.fileId.Some? && command.name.Some? && GoodPath(command.name.value)
      then DuplicateFileId else InvalidPathRequest
    case AwaitApproval => NotAuthorized
    case Approved => InvalidAction
  }

  lemma CollectContinues(session: TransferSession, command: FileTransferCommand)
    requires session.phase == CollectReceivePaths
    ensures Continues(session, command, CollectSlot(command, session).slot, CollectSlot(command, session).actions)
  {
    hide ValidProtocolPath, GoodPath, PathsOf, Drops, StatusResponse, AbortIfApproved;
    if command.name.Some? {
      PathIff(command.name.value);
    }
    DropsAre(command.id, session, command.fileId, DuplicateFileId, true);
    DropsAre(command.id, session, command.fileId, InvalidPathRequest, true);
  }

  lemma ApprovedContinues(session: TransferSession, command: FileTransferCommand)
    requires session.phase == Approved && command.action !in {Send, Receive, Cancel}
    ensures Continues(session, command, ApprovedSlot(command, session).slot, ApprovedSlot(command, session).actions)
  {
    hide ValidProtocolPath, GoodPath, Drops, StatusResponse, AbortIfApproved;
    if command.name.Some? {
      PathIff(command.name.value);
    }
    DropsAre(command.id, session, command.fileId, InvalidAction, true);
  }

  lemma SlotContinues(session: TransferSession, command: FileTransferCommand)
    requires command.action !in {Send, Receive, Cancel}
    ensures Continues(session, command, ContinueSlot(command, session).slot, ContinueSlot(command, session).actions)
  {
    hide Continues, CollectSlot, ApprovedSlot;
    match session.phase {
      case CollectReceivePaths => CollectContinues(session, command);
      case AwaitApproval => WaitingContinues(session, command);
      case Approved => ApprovedContinues(session, command);
    }
  }

  lemma WaitingContinues(session: TransferSession, command: FileTransferCommand)
    requires session.phase == AwaitApproval
    ensures Continues(session, command, ContinueSlot(command, session).slot, ContinueSlot(command, session).actions)
  {
    hide Drops, StatusResponse, AbortIfApproved, GoodPath;
    DropsAre(command.id, session, command.fileId, NotAuthorized, true);
  }

  /**
   * A command for a live session is collected or handed over exactly when the session is in the phase
   * for it and the command is complete; any other ends the session, and its peer is told why. No other
   * session changes, and a command for an unknown one changes nothing.
   */
  lemma LiveIff(m: Manager, command: FileTransferCommand)
    requires command.action !in {Send, Receive}
    ensures var (m', actions) := HandleCommand(m, command);
            if command.id !in m.sessions then
              m' == m && Tells(actions, command.id, command.fileId, UnknownSession, command.quiet, true)
            else if command.action == Cancel then
              m' == Without(m, command.id)
              && Drops(actions, command.id, m.sessions[command.id], None, Canceled, false)
            else
              && m'.(sessions := m'.sessions - {command.id}) == Without(m, command.id)
              && Continues(m.sessions[command.id], command,
                           if command.id in m'.sessions then Some(m'.sessions[command.id]) else None, actions)
  {
    hide Continues, Drops, StatusResponse, AbortIfApproved, Tells, ContinueSlot;
    ResponseTells(command.id, command.fileId, UnknownSession, command.quiet, true);
    if command.id in m.sessions {
      if command.action != Cancel {
        SlotContinues(m.sessions[command.id], command);
      }
      DropsAre(command.id, m.sessions[command.id], None, Canceled, false);
      WithoutIs(m, command.id, ContinueSlot(command, m.sessions[command.id]).slot);
    }
  }

  lemma WithoutIs(m: Manager, id: Text, slot: Option<TransferSession>)
    ensures var m' := With(m, id, slot);
            && m'.(sessions := m'.sessions - {id}) == Without(m, id)
            && slot == if id in m'.sessions then Some(m'.sessions[id]) else None
  {}

  /** A rejection ends the session in whatever phase it is, and its peer is told the status. */
  lemma RejectionTells(m: Manager, id: Text, status: StatusText)
    ensures var (m', actions) := RejectId(m, id, status);
            if id !in m.sessions then m' == m && actions == []
            else m' == Without(m, id) && Drops(actions, id, m.sessions[id], None, status, true)
  {
    hide Drops, StatusResponse, AbortIfApproved;
    if id in m.sessions {
      DropsAre(id, m.sessions[id], None, status, true);
    }
  }

  /** Rejecting all sessions leaves none, drops the staging of each approved one, and tells each peer. */
  lemma RejectAllEndsAll(m: Manager, status: StatusText, m': Manager, actions: seq<Action>, id: Text)
    requires Next(m, RejectAll(status), m', actions)
    ensures m'.sessions == map[]
    ensures id in m.sessions && m.sessions[id].phase == Approved ==> Abort(id) in actions
    ensures id in m.sessions && m.sessions[id].quiet <= 1 ==> Write(id, None, status) in actions
  {
    hide RejectEach, RejectSlot;
    var ids :| Enumerates(ids, m.sessions.Keys) && (m', actions) == RejectEach(m, ids, status);
    RejectEachIs(m, ids, status);
    if id in m.sessions {
      RejectEachTells(m, ids, status, id);
    }
  }

  lemma {:induction false} RejectEachTells(m: Manager, ids: seq<Text>, status: StatusText, id: Text)
    requires id in m.sessions
    ensures id in ids && m.sessions[id].phase == Approved ==> Abort(id) in RejectEach(m, ids, status).1
    ensures id in ids && m.sessions[id].quiet <= 1 ==> Write(id, None, status) in RejectEach(m, ids, status).1
    decreases |ids|
  {
    hide RejectId;
    if ids != [] {
      var initial, last := ids[..|ids| - 1], ids[|ids| - 1];
      assert ids == initial + [last];
      RejectEachTells(m, initial, status, id);
      RejectEachIs(m, initial, status);
      if last == id && id !in initial {
        RejectIdTells(RejectEach(m, initial, status).0, last, status);
      }
    }
  }

  lemma RejectIdTells(m: Manager, id: Text, status: StatusText)
    requires id in m.sessions
    ensures m.sessions[id].phase == Approved ==> Abort(id) in RejectId(m, id, status).1
    ensures m.sessions[id].quiet <= 1 ==> Write(id, None, status) in RejectId(m, id, status).1
  {}
}
