/** The OSC 5113 consent state machine: what each session does, and the manager that runs them. */
module TransferManager {
  import opened Bytes
  import opened TransferCommands

  const MAX_ACTIVE_SESSIONS := 16
  const MAX_RECEIVE_PATHS := 256

  datatype Direction = ToTerminal | FromTerminal

  datatype Phase = CollectReceivePaths | AwaitApproval | Approved

  datatype TransferSession = TransferSession(
    direction: Direction,
    phase: Phase,
    quiet: byte,
    requestId: u64,
    expectedPaths: nat,
    receiveRequests: seq<FileTransferCommand>)

  /** The status texts of the manager, by name, and whatever text a daemon policy gives. */
  datatype StatusText =
    | MissingPathCount  // EINVAL:Missing receive path count
    | TooManyPaths  // E2BIG:Too many receive paths
    | Canceled  // CANCELED
    | InvalidPathRequest  // EINVAL:Invalid receive path request
    | DuplicateFileId  // EEXIST:Duplicate file id
    | InvalidAction  // EINVAL:Action is invalid for transfer direction
    | NotAuthorized  // EINVAL:Command received before authorization
    | Granted  // OK
    | ReceiveUnsupported  // ENOTSUP:Receive sessions are not implemented
    | SessionExists  // EEXIST:Transfer session already exists
    | TooManySessions  // ENOSPC:Too many transfer sessions
    | UnknownSession  // ENOENT:Unknown transfer session
    | RefusedByUser  // EPERM:User refused the transfer
    | PolicyStatus(text: string)

  datatype Action =
    | RequestApproval(requestId: u64, sessionId: Text, direction: Direction, paths: seq<Text>)
    | Write(sessionId: Text, fileId: Option<Text>, status: StatusText)
    | Execute(direction: Direction, quiet: byte, command: FileTransferCommand)
    | CompleteReceiveListing(sessionId: Text, quiet: byte)
    | Abort(sessionId: Text)

  function StatusResponse(id: Text, fileId: Option<Text>, status: StatusText, quiet: byte, isError: bool): seq<Action> {
    if Spoken(quiet, isError) then [Write(id, fileId, status)] else []
  }

  function ErrorResponse(command: FileTransferCommand, status: StatusText): seq<Action> {
    StatusResponse(command.id, command.fileId, status, command.quiet, true)
  }

  predicate ValidReceiveRequest(command: FileTransferCommand) {
    command.action == File && command.fileId.Some? && command.name.Some? && ValidProtocolPath(command.name.value)
  }

  predicate ShapeIsValid(command: FileTransferCommand) {
    match command.action
    case File => command.fileId.Some? && command.name.Some? && ValidProtocolPath(command.name.value)
    case Data => command.fileId.Some?
    case EndData => command.fileId.Some?
    case Finish => true
    case Finished => true
    case _ => false
  }

  /** The command that ends an approved session of this direction in the ordinary way. */
  predicate Closes(direction: Direction, command: FileTransferCommand) {
    command.action == if direction == ToTerminal then Finish else Finished
  }

  /** What an approved session may hand to the filesystem. */
  predicate Permitted(direction: Direction, command: FileTransferCommand) {
    ShapeIsValid(command) && (command.action in {File, Data, EndData} || Closes(direction, command))
  }

  function PathsOf(requests: seq<FileTransferCommand>): seq<Text> {
    if requests == [] then [] else
      var last := requests[|requests| - 1];
      PathsOf(requests[..|requests| - 1]) + (if last.name.Some? then [last.name.value] else [])
  }

  function Executions(direction: Direction, quiet: byte, requests: seq<FileTransferCommand>): (actions: seq<Action>)
    ensures |actions| == |requests|
    ensures forall k :: 0 <= k < |actions| ==> actions[k] == Execute(direction, quiet, requests[k])
  {
    seq(|requests|, k requires 0 <= k < |requests| => Execute(direction, quiet, requests[k]))
  }

  predicate HasFileId(requests: seq<FileTransferCommand>, fileId: Text) {
    exists k :: 0 <= k < |requests| && requests[k].fileId == Some(fileId)
  }

  /* ---- One session ---- */

  /** What a session slot becomes, and what is emitted. */
  datatype Outcome = Outcome(slot: Option<TransferSession>, actions: seq<Action>)

  /** A start command on a free slot: refused, or a session that holds `token`. */
  function StartSlot(command: FileTransferCommand, direction: Direction, token: u64): Outcome {
    if direction == FromTerminal && command.size.None? then
      Outcome(None, ErrorResponse(command, MissingPathCount))
    else if direction == FromTerminal && command.size.value > MAX_RECEIVE_PATHS then
      Outcome(None, ErrorResponse(command, TooManyPaths))
    else
      var expected := if direction == FromTerminal then command.size.value else 0;
      if expected != 0 then
        Outcome(Some(TransferSession(direction, CollectReceivePaths, command.quiet, token, expected, [])), [])
      else
        Outcome(Some(TransferSession(direction, AwaitApproval, command.quiet, token, 0, [])),
                [RequestApproval(token, command.id, direction, [])])
  }

  function AbortIfApproved(id: Text, session: TransferSession): seq<Action> {
    if session.phase == Approved then [Abort(id)] else []
  }

  function CancelSlot(id: Text, session: TransferSession): Outcome {
    Outcome(None, AbortIfApproved(id, session) + StatusResponse(id, None, Canceled, session.quiet, false))
  }

  function RejectSlot(id: Text, session: TransferSession, status: StatusText): Outcome {
    Outcome(None, AbortIfApproved(id, session) + StatusResponse(id, None, status, session.quiet, true))
  }

  function DropSlot(command: FileTransferCommand, session: TransferSession, status: StatusText): Outcome {
    Outcome(None, AbortIfApproved(command.id, session)
                  + StatusResponse(command.id, command.fileId, status, session.quiet, true))
  }

  function CollectSlot(command: FileTransferCommand, session: TransferSession): Outcome {
    if !ValidReceiveRequest(command) then DropSlot(command, session, InvalidPathRequest)
    else if HasFileId(session.receiveRequests, command.fileId.value) then
      DropSlot(command, session, DuplicateFileId)
    else
      var requests := session.receiveRequests + [command];
      if |requests| != session.expectedPaths then Outcome(Some(session.(receiveRequests := requests)), [])
      else Outcome(Some(session.(receiveRequests := requests, phase := AwaitApproval)),
                   [RequestApproval(session.requestId, command.id, session.direction, PathsOf(requests))])
  }

  function ApprovedSlot(command: FileTransferCommand, session: TransferSession): Outcome {
    if !Permitted(session.direction, command) then
      DropSlot(command, session, InvalidAction)
    else
      Outcome(if Closes(session.direction, command) then None else Some(session),
              [Execute(session.direction, session.quiet, command)])
  }

  /** Any command other than a start or a cancel, for a live session. */
  function ContinueSlot(command: FileTransferCommand, session: TransferSession): Outcome {
    match session.phase
    case CollectReceivePaths => CollectSlot(command, session)
    case AwaitApproval => DropSlot(command, session, NotAuthorized)
    case Approved => ApprovedSlot(command, session)
  }

  function ApproveSlot(id: Text, session: TransferSession): Outcome {
    Outcome(Some(session.(phase := Approved,
                          receiveRequests := if session.direction == FromTerminal then []
                            else session.receiveRequests)),
            StatusResponse(id, None, Granted, session.quiet, false)
            + if session.direction == FromTerminal
              then Executions(session.direction, session.quiet, session.receiveRequests)
                   + [CompleteReceiveListing(id, session.quiet)]
              else [])
  }

  /* ---- All sessions ---- */

  datatype Manager = Manager(sessions: map<Text, TransferSession>, nextRequestId: u64, receiveSupported: bool)

  function NextToken(token: u64): u64 {
    if token + 1 == U64_LIMIT then 1 else token + 1
  }

  function With(m: Manager, id: Text, slot: Option<TransferSession>): Manager {
    m.(sessions := if slot.Some? then m.sessions[id := slot.value] else m.sessions - {id})
  }

  function HandleStart(m: Manager, command: FileTransferCommand, direction: Direction): (Manager, seq<Action>) {
    if direction == FromTerminal && !m.receiveSupported then
      (m, ErrorResponse(command, ReceiveUnsupported))
    else if command.id in m.sessions then (m, ErrorResponse(command, SessionExists))
    else if |m.sessions| >= MAX_ACTIVE_SESSIONS then (m, ErrorResponse(command, TooManySessions))
    else
      var outcome := StartSlot(command, direction, m.nextRequestId);
      if outcome.slot.None? then (m, outcome.actions)
      else (With(m, command.id, outcome.slot).(nextRequestId := NextToken(m.nextRequestId)), outcome.actions)
  }

  function HandleLive(m: Manager, command: FileTransferCommand): (Manager, seq<Action>) {
    if command.id !in m.sessions then (m, ErrorResponse(command, UnknownSession))
    else
      var session := m.sessions[command.id];
      var outcome := if command.action == Cancel then CancelSlot(command.id, session)
        else ContinueSlot(command, session);
      (With(m, command.id, outcome.slot), outcome.actions)
  }

  function HandleCommand(m: Manager, command: FileTransferCommand): (Manager, seq<Action>) {
    match command.action
    case Send => HandleStart(m, command, ToTerminal)
    case Receive => HandleStart(m, command, FromTerminal)
    case _ => HandleLive(m, command)
  }

  function ApproveId(m: Manager, id: Text): (Manager, seq<Action>)
    requires id in m.sessions
  {
    var outcome := ApproveSlot(id, m.sessions[id]);
    (With(m, id, outcome.slot), outcome.actions)
  }

  function RejectId(m: Manager, id: Text, status: StatusText): (Manager, seq<Action>) {
    if id !in m.sessions then (m, []) else
      var outcome := RejectSlot(id, m.sessions[id], status);
      (With(m, id, outcome.slot), outcome.actions)
  }

  function RejectEach(m: Manager, ids: seq<Text>, status: StatusText): (Manager, seq<Action>) {
    if ids == [] then (m, []) else
      var (before, actions) := RejectEach(m, ids[..|ids| - 1], status);
      var (after, more) := RejectId(before, ids[|ids| - 1], status);
      (after, actions + more)
  }

  /** `id` is still waiting for an answer to the prompt with this token. */
  predicate Waits(m: Manager, id: Text, token: u64) {
    id in m.sessions && m.sessions[id].requestId == token && m.sessions[id].phase == AwaitApproval
  }

  datatype Event =
    | Handle(command: FileTransferCommand)
    | Approve(token: u64)
    | Reject(token: u64, status: StatusText)
    | RejectSession(id: Text, status: StatusText)
    | RejectAll(status: StatusText)

  ghost predicate SomeWaits(m: Manager, token: u64) {
    exists id: Text :: Waits(m, id, token)
  }

  /** One call; a token that several sessions held would be resolved in the map's own order. */
  ghost predicate Next(m: Manager, event: Event, m': Manager, actions: seq<Action>) {
    match event
    case Handle(command) => (m', actions) == HandleCommand(m, command)
    case Approve(token) =>
      if SomeWaits(m, token) then exists id: Text :: Waits(m, id, token) && (m', actions) == ApproveId(m, id)
      else m' == m && actions == []
    case Reject(token, status) =>
      if SomeWaits(m, token) then exists id: Text :: Waits(m, id, token) && (m', actions) == RejectId(m, id, status)
      else m' == m && actions == []
    case RejectSession(id, status) => (m', actions) == RejectId(m, id, status)
    case RejectAll(status) =>
      exists ids: seq<Text> :: Enumerates(ids, m.sessions.Keys) && (m', actions) == RejectEach(m, ids, status)
  }

  ghost predicate Enumerates(ids: seq<Text>, all: set<Text>) {
    && (forall id :: id in all ==> id in ids)
    && (forall k :: 0 <= k < |ids| ==> ids[k] in all)
    && forall j, k :: 0 <= j < k < |ids| ==> ids[j] != ids[k]
  }

  /* ---- The manager object ---- */

  class TtyTransferManager {
    var sessions: map<Text, TransferSession>
    var nextRequestId: u64
    const receiveSupported: bool

    function View(): Manager
      reads this
    {
      Manager(sessions, nextRequestId, receiveSupported)
    }

    constructor (receiveSupported: bool)
      ensures View() == Manager(map[], 1, receiveSupported)
    {
      sessions, nextRequestId := map[], 1;
      this.receiveSupported := receiveSupported;
    }

    method HandleOne(command: FileTransferCommand) returns (actions: seq<Action>)
      modifies this
      ensures Next(old(View()), Handle(command), View(), actions)
    {
      match command.action {
        case Send => actions := Start(command, ToTerminal);
        case Receive => actions := Start(command, FromTerminal);
        case Cancel => actions := CancelSession(command);
        case _ => actions := ContinueSession(command);
      }
    }

    method Start(command: FileTransferCommand, direction: Direction) returns (actions: seq<Action>)
      modifies this
      ensures (View(), actions) == HandleStart(old(View()), command, direction)
    {
      if direction == FromTerminal && !receiveSupported {
        return ErrorResponse(command, ReceiveUnsupported);
      }
      if command.id in sessions {
        return ErrorResponse(command, SessionExists);
      }
      if |sessions| >= MAX_ACTIVE_SESSIONS {
        return ErrorResponse(command, TooManySessions);
      }
      var expectedPaths: nat := 0;
      if direction == FromTerminal {
        if command.size.None? {
          return ErrorResponse(command, MissingPathCount);
        }
        expectedPaths := command.size.value;
        if expectedPaths > MAX_RECEIVE_PATHS {
          return ErrorResponse(command, TooManyPaths);
        }
      }
      var requestId := AllocateRequestId();
      var phase := if direction == FromTerminal && expectedPaths != 0 then CollectReceivePaths else AwaitApproval;
      sessions := sessions[command.id := TransferSession(direction, phase, command.quiet, requestId, expectedPaths,
                                                         [])];
      if phase == AwaitApproval {
        return [RequestApproval(requestId, command.id, direction, [])];
      }
      return [];
    }

    method AllocateRequestId() returns (requestId: u64)
      modifies this`nextRequestId
      ensures requestId == old(nextRequestId) && nextRequestId == NextToken(requestId)
    {
      requestId := nextRequestId;
      var next := (nextRequestId + 1) % U64_LIMIT;
      nextRequestId := if next < 1 then 1 else next;
    }

    method CancelSession(command: FileTransferCommand) returns (actions: seq<Action>)
      requires command.action == Cancel
      modifies this
      ensures (View(), actions) == HandleLive(old(View()), command)
    {
      if command.id !in sessions {
        return ErrorResponse(command, UnknownSession);
      }
      var session := sessions[command.id];
      sessions := sessions - {command.id};
      actions := [];
      if session.phase == Approved {
        actions := [Abort(command.id)];
      }
      actions := actions + StatusResponse(command.id, None, Canceled, session.quiet, false);
    }

    method ContinueSession(command: FileTransferCommand) returns (actions: seq<Action>)
      requires command.action != Cancel
      modifies this
      ensures (View(), actions) == HandleLive(old(View()), command)
    {
      if command.id !in sessions {
        return ErrorResponse(command, UnknownSession);
      }
      var session := sessions[command.id];
      match session.phase {
        case CollectReceivePaths =>
          actions := CollectReceivePath(command);
        case AwaitApproval =>
          sessions := sessions - {command.id};
          actions := StatusResponse(command.id, command.fileId, NotAuthorized,
                                    session.quiet, true);
          assert [] + actions == actions;
        case Approved =>
          actions := AuthorizedCommand(command);
      }
    }

    method CollectReceivePath(command: FileTransferCommand) returns (actions: seq<Action>)
      requires command.id in sessions && sessions[command.id].phase == CollectReceivePaths
      modifies this`sessions
      ensures var outcome := CollectSlot(command, old(sessions)[command.id]);
              actions == outcome.actions && View() == With(old(View()), command.id, outcome.slot)
    {
      var session := sessions[command.id];
      if !ValidReceiveRequest(command) {
        sessions := sessions - {command.id};
        actions := StatusResponse(command.id, command.fileId, InvalidPathRequest, session.quiet, true);
        assert [] + actions == actions;
        return;
      }
      if HasFileId(session.receiveRequests, command.fileId.value) {
        sessions := sessions - {command.id};
        actions := StatusResponse(command.id, command.fileId, DuplicateFileId, session.quiet, true);
        assert [] + actions == actions;
        return;
      }
      session := session.(receiveRequests := session.receiveRequests + [command]);
      sessions := sessions[command.id := session];
      if |session.receiveRequests| != session.expectedPaths {
        return [];
      }
      sessions := sessions[command.id := session.(phase := AwaitApproval)];
      return [RequestApproval(session.requestId, command.id, session.direction, PathsOf(session.receiveRequests))];
    }

    method AuthorizedCommand(command: FileTransferCommand) returns (actions: seq<Action>)
      requires command.id in sessions && sessions[command.id].phase == Approved
      modifies this`sessions
      ensures var outcome := ApprovedSlot(command, old(sessions)[command.id]);
              actions == outcome.actions && View() == With(old(View()), command.id, outcome.slot)
    {
      var session := sessions[command.id];
      if !Permitted(session.direction, command) {
        sessions := sessions - {command.id};
        return [Abort(command.id)]
               + StatusResponse(command.id, command.fileId, InvalidAction, session.quiet, true);
      }
      if Closes(session.direction, command) {
        sessions := sessions - {command.id};
      }
      return [Execute(session.direction, session.quiet, command)];
    }

    /** The map is searched in its own order; any match may be found. */
    method SessionIdForRequest(requestId: u64) returns (found: Option<Text>)
      ensures found.Some? ==> Waits(View(), found.value, requestId)
      ensures found.None? ==> !SomeWaits(View(), requestId)
    {
      var ids := set id | id in sessions && Waits(View(), id, requestId);
      if ids == {} {
        assert forall id: Text :: Waits(View(), id, requestId) ==> id in ids;
        return None;
      }
      var id :| id in ids;
      return Some(id);
    }

    method ApproveToken(requestId: u64) returns (actions: seq<Action>)
      modifies this
      ensures Next(old(View()), Approve(requestId), View(), actions)
    {
      var found := SessionIdForRequest(requestId);
      if found.None? {
        return [];
      }
      var id := found.value;
      var session := sessions[id];
      var requests := session.receiveRequests;
      session := session.(phase := Approved);
      actions := StatusResponse(id, None, Granted, session.quiet, false);
      if session.direction == FromTerminal {
        session := session.(receiveRequests := []);
        actions := actions
                   + (Executions(session.direction, session.quiet, requests)
                      + [CompleteReceiveListing(id, session.quiet)]);
      } else {
        assert actions + [] == actions;
      }
      sessions := sessions[id := session];
      assert (View(), actions) == ApproveId(old(View()), id);
    }

    method RejectToken(requestId: u64, status: StatusText) returns (actions: seq<Action>)
      modifies this
      ensures Next(old(View()), Reject(requestId, status), View(), actions)
    {
      var found := SessionIdForRequest(requestId);
      if found.None? {
        return [];
      }
      actions := RejectById(found.value, status);
    }

    method Deny(requestId: u64) returns (actions: seq<Action>)
      modifies this
      ensures Next(old(View()), Reject(requestId, RefusedByUser), View(), actions)
    {
      actions := RejectToken(requestId, RefusedByUser);
    }

    method RejectById(id: Text, status: StatusText) returns (actions: seq<Action>)
      modifies this
      ensures (View(), actions) == RejectId(old(View()), id, status)
      ensures Next(old(View()), RejectSession(id, status), View(), actions)
    {
      if id !in sessions {
        return [];
      }
      var session := sessions[id];
      sessions := sessions - {id};
      actions := [];
      if session.phase == Approved {
        actions := [Abort(id)];
      }
      actions := actions + StatusResponse(id, None, status, session.quiet, true);
    }

    method RejectEverySession(status: StatusText) returns (actions: seq<Action>)
      modifies this
      ensures Next(old(View()), RejectAll(status), View(), actions)
    {
      ghost var all := sessions.Keys;
      var left := sessions.Keys;
      ghost var ids: seq<Text> := [];
      actions := [];
      while left != {}
        invariant left <= all && Enumerates(ids, all - left)
        invariant (View(), actions) == RejectEach(old(View()), ids, status)
        decreases left
      {
        var id :| id in left;
        var more := RejectById(id, status);
        actions := actions + more;
        assert (ids + [id])[..|ids|] == ids;
        ids := ids + [id];
        left := left - {id};
      }
      assert all - left == all;
    }

    method ActiveSessions() returns (count: nat)
      ensures count == |sessions|
    {
      count := |sessions|;
    }

    method IsApprovalPending(requestId: u64) returns (pending: bool)
      ensures pending <==> SomeWaits(View(), requestId)
    {
      var found := SessionIdForRequest(requestId);
      pending := found.Some?;
    }
  }
}
