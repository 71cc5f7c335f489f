/** What holds over every run of the consent state machine. */
module ConsentSafety {
  import opened Bytes
  import opened TransferCommands
  import opened TransferManager

  /** The calls made to one manager, and what each returned; `states[k]` is the manager before call `k`. */
  datatype Run = Run(states: seq<Manager>, events: seq<Event>, outs: seq<seq<Action>>)

  ghost predicate IsRun(r: Run) {
    && |r.states| == |r.events| + 1 && |r.outs| == |r.events|
    && r.states[0].sessions == map[] && r.states[0].nextRequestId == 1
    && forall k :: 0 <= k < |r.events| ==> Next(r.states[k], r.events[k], r.states[k + 1], r.outs[k])
  }

  /* ---- Well-formed managers ---- */

  predicate RequestsOk(id: Text, requests: seq<FileTransferCommand>) {
    && (forall k :: 0 <= k < |requests| ==> ValidReceiveRequest(requests[k]) && requests[k].id == id)
    && forall j, k :: 0 <= j < k < |requests| ==> requests[j].fileId != requests[k].fileId
  }

  /** Fewer requests than expected while collecting, exactly as many while waiting, none once approved. */
  predicate SessionOk(id: Text, session: TransferSession) {
    && RequestsOk(id, session.receiveRequests)
    && session.expectedPaths <= MAX_RECEIVE_PATHS
    && (session.direction == ToTerminal ==> session.expectedPaths == 0)
    && match session.phase
       case CollectReceivePaths => session.direction == FromTerminal
         && |session.receiveRequests| < session.expectedPaths
       case AwaitApproval => |session.receiveRequests| == session.expectedPaths
       case Approved => session.receiveRequests == []
  }

  ghost predicate ManagerOk(m: Manager) {
    && |m.sessions| <= MAX_ACTIVE_SESSIONS
    && forall id :: id in m.sessions ==> SessionOk(id, m.sessions[id])
  }

  lemma {:induction false} SizeOfSubset<T>(small: set<T>, large: set<T>)
    requires small <= large
    ensures |small| <= |large|
  {
    if small != {} {
      var x :| x in small;
      SizeOfSubset(small - {x}, large - {x});
    }
  }

  lemma WithOk(m: Manager, id: Text, slot: Option<TransferSession>)
    requires ManagerOk(m)
    requires slot.Some? ==> SessionOk(id, slot.value) && (id in m.sessions || |m.sessions| < MAX_ACTIVE_SESSIONS)
    ensures ManagerOk(With(m, id, slot))
  {}

  lemma StartOk(command: FileTransferCommand, direction: Direction, token: u64)
    ensures var outcome := StartSlot(command, direction, token);
            outcome.slot.Some? ==> SessionOk(command.id, outcome.slot.value)
  {}

  lemma CollectOk(command: FileTransferCommand, session: TransferSession)
    requires SessionOk(command.id, session) && session.phase == CollectReceivePaths
    ensures var outcome := CollectSlot(command, session);
            outcome.slot.Some? ==> SessionOk(command.id, outcome.slot.value)
  {}

  lemma LiveOk(command: FileTransferCommand, session: TransferSession)
    requires SessionOk(command.id, session)
    ensures var outcome := ContinueSlot(command, session);
            outcome.slot.Some? ==> SessionOk(command.id, outcome.slot.value)
  {
    hide SessionOk, CollectSlot, Permitted;
    if session.phase == CollectReceivePaths {
      CollectOk(command, session);
    }
  }

  lemma ApproveOk(id: Text, session: TransferSession)
    requires SessionOk(id, session) && session.phase == AwaitApproval
    ensures SessionOk(id, ApproveSlot(id, session).slot.value)
  {}

  lemma HandleStartOk(m: Manager, command: FileTransferCommand, direction: Direction)
    requires ManagerOk(m)
    ensures ManagerOk(HandleStart(m, command, direction).0)
  {
    hide StartSlot, SessionOk, ErrorResponse;
    StartOk(command, direction, m.nextRequestId);
    if command.id !in m.sessions && |m.sessions| < MAX_ACTIVE_SESSIONS {
      WithOk(m, command.id, StartSlot(command, direction, m.nextRequestId).slot);
    }
  }

  lemma HandleLiveOk(m: Manager, command: FileTransferCommand)
    requires ManagerOk(m)
    ensures ManagerOk(HandleLive(m, command).0)
  {
    hide ContinueSlot, CancelSlot, SessionOk, ErrorResponse;
    if command.id in m.sessions {
      var session := m.sessions[command.id];
      LiveOk(command, session);
      CancelEnds(command.id, session);
      WithOk(m, command.id, if command.action == Cancel then None else ContinueSlot(command, session).slot);
    }
  }

  lemma HandleOk(m: Manager, command: FileTransferCommand)
    requires ManagerOk(m)
    ensures ManagerOk(HandleCommand(m, command).0)
  {
    hide HandleStart, HandleLive, ManagerOk;
    HandleStartOk(m, command, ToTerminal);
    HandleStartOk(m, command, FromTerminal);
    HandleLiveOk(m, command);
  }

  lemma CancelEnds(id: Text, session: TransferSession)
    ensures CancelSlot(id, session).slot == None
  {}

  lemma RejectIdIs(m: Manager, id: Text, status: StatusText)
    ensures RejectId(m, id, status).0 == With(m, id, None)
    ensures RejectId(m, id, status).1 == if id in m.sessions then RejectSlot(id, m.sessions[id], status).actions else []
  {}

  /** Rejecting several sessions removes just those. */
  lemma {:induction false} RejectEachIs(m: Manager, ids: seq<Text>, status: StatusText)
    ensures var after := RejectEach(m, ids, status).0;
            && after.nextRequestId == m.nextRequestId && after.receiveSupported == m.receiveSupported
            && forall id :: id in after.sessions <==> id in m.sessions && id !in ids
    ensures forall id :: id in RejectEach(m, ids, status).0.sessions ==>
              RejectEach(m, ids, status).0.sessions[id] == m.sessions[id]
    decreases |ids|
  {
    hide RejectId, RejectSlot;
    if ids != [] {
      var initial, last := ids[..|ids| - 1], ids[|ids| - 1];
      assert ids == initial + [last];
      RejectEachIs(m, initial, status);
      RejectIdIs(RejectEach(m, initial, status).0, last, status);
    }
  }

  lemma {:induction false} RejectEachOk(m: Manager, ids: seq<Text>, status: StatusText)
    requires ManagerOk(m)
    ensures ManagerOk(RejectEach(m, ids, status).0)
    decreases |ids|
  {
    hide RejectId, ManagerOk;
    if ids != [] {
      RejectEachOk(m, ids[..|ids| - 1], status);
      var before := RejectEach(m, ids[..|ids| - 1], status).0;
      RejectIdIs(before, ids[|ids| - 1], status);
      WithOk(before, ids[|ids| - 1], None);
    }
  }

  lemma NextOk(m: Manager, event: Event, m': Manager, actions: seq<Action>)
    requires ManagerOk(m) && Next(m, event, m', actions)
    ensures ManagerOk(m')
  {
    hide ManagerOk, HandleCommand, RejectId, RejectEach, Enumerates;
    match event {
      case Handle(command) => HandleOk(m, command);
      case Approve(token) =>
        if SomeWaits(m, token) {
          var id :| Waits(m, id, token) && (m', actions) == ApproveId(m, id);
          SessionIsOk(m, id);
          ApproveOk(id, m.sessions[id]);
          WithOk(m, id, ApproveSlot(id, m.sessions[id]).slot);
        }
      case Reject(token, status) =>
        if SomeWaits(m, token) {
          var id :| Waits(m, id, token) && (m', actions) == RejectId(m, id, status);
          RejectIdIs(m, id, status);
          WithOk(m, id, None);
        }
      case RejectSession(id, status) =>
        RejectIdIs(m, id, status);
        WithOk(m, id, None);
      case RejectAll(status) =>
        var ids :| Enumerates(ids, m.sessions.Keys) && (m', actions) == RejectEach(m, ids, status);
        RejectEachOk(m, ids, status);
    }
  }

  lemma SessionIsOk(m: Manager, id: Text)
    requires ManagerOk(m) && id in m.sessions
    ensures SessionOk(id, m.sessions[id])
  {}

  /** Every manager that a run reaches is well formed. */
  lemma {:induction false} RunOk(r: Run, k: nat)
    requires IsRun(r) && k < |r.states|
    ensures ManagerOk(r.states[k])
  {
    hide Next;
    if k > 0 {
      RunOk(r, k - 1);
      NextOk(r.states[k - 1], r.events[k - 1], r.states[k], r.outs[k - 1]);
    }
  }

  /* ---- Where sessions and actions come from ---- */

  function PromptOf(id: Text, session: TransferSession): Action {
    RequestApproval(session.requestId, id, session.direction, PathsOf(session.receiveRequests))
  }

  predicate PromptedIfWaiting(id: Text, session: TransferSession, actions: seq<Action>) {
    session.phase != Approved && (session.phase == AwaitApproval ==> PromptOf(id, session) in actions)
  }

  predicate SameSession(before: TransferSession, after: TransferSession) {
    before.requestId == after.requestId && before.direction == after.direction && before.quiet == after.quiet
  }

  /** A session after a call is unchanged, newly started, one request further, or approved by its own token. */
  ghost predicate Origin(m: Manager, event: Event, m': Manager, actions: seq<Action>, id: Text) {
    id in m'.sessions ==>
      var after := m'.sessions[id];
      if id !in m.sessions then
        && event.Handle? && event.command.id == id && after.requestId == m.nextRequestId
          && m'.nextRequestId == NextToken(m.nextRequestId)
        && PromptedIfWaiting(id, after, actions)
      else
        var before := m.sessions[id];
        || before == after
        || (SameSession(before, after) && before.phase == CollectReceivePaths && PromptedIfWaiting(id, after, actions))
        || (SameSession(before, after) && before.phase == AwaitApproval && after.phase == Approved
            && event == Approve(before.requestId))
  }

  lemma HandleOrigin(m: Manager, command: FileTransferCommand, id: Text)
    ensures var (m', actions) := HandleCommand(m, command);
            Origin(m, Handle(command), m', actions, id)
  {}

  lemma HandleOthers(m: Manager, command: FileTransferCommand, id: Text)
    ensures id != command.id ==>
              (id in HandleCommand(m, command).0.sessions <==> id in m.sessions)
              && (id in m.sessions ==> HandleCommand(m, command).0.sessions[id] == m.sessions[id])
  {
    hide StartSlot, ContinueSlot, CancelSlot;
  }

  lemma NextOrigin(m: Manager, event: Event, m': Manager, actions: seq<Action>, id: Text)
    requires Next(m, event, m', actions)
    ensures Origin(m, event, m', actions, id)
  {
    hide HandleCommand, RejectId, RejectEach, Enumerates, StatusResponse, Executions, PathsOf, PromptedIfWaiting;
    match event {
      case Handle(command) => HandleOrigin(m, command, id);
      case Approve(token) =>
      case Reject(token, status) =>
        if SomeWaits(m, token) {
          var other :| Waits(m, other, token) && (m', actions) == RejectId(m, other, status);
          RejectIdIs(m, other, status);
        }
      case RejectSession(other, status) => RejectIdIs(m, other, status);
      case RejectAll(status) =>
        var ids :| Enumerates(ids, m.sessions.Keys) && (m', actions) == RejectEach(m, ids, status);
        RejectEachIs(m, ids, status);
    }
  }

  /** The action has the filesystem do something for a session: carry out a command, or send its listing. */
  predicate HandsOver(action: Action) {
    action.Execute? || action.CompleteReceiveListing?
  }

  function IdOf(action: Action): Text
    requires HandsOver(action)
  {
    if action.Execute? then action.command.id else action.sessionId
  }

  function DirectionOf(action: Action): Direction
    requires HandsOver(action)
  {
    if action.Execute? then action.direction else FromTerminal
  }

  /** Only an approved session's own command, or its approval, hands anything to the filesystem. */
  ghost predicate ExecuteOrigin(m: Manager, event: Event, action: Action) {
    HandsOver(action) ==>
      && IdOf(action) in m.sessions
      && var session := m.sessions[IdOf(action)];
         && DirectionOf(action) == session.direction && action.quiet == session.quiet
         && ((session.phase == Approved && action.Execute?
              && event == Handle(action.command) && Permitted(session.direction, action.command))
             || (session.phase == AwaitApproval && event == Approve(session.requestId)
                 && session.direction == FromTerminal
                 && (action.Execute? ==> action.command in session.receiveRequests)))
  }

  lemma NoExecute(id: Text, session: TransferSession, fileId: Option<Text>, status: StatusText, isError: bool)
    ensures var actions := AbortIfApproved(id, session) + StatusResponse(id, fileId, status, session.quiet, isError);
            forall a :: a in actions ==>
              a == Abort(id) || a.Write?
  {}

  lemma HandleExecutes(m: Manager, command: FileTransferCommand, action: Action)
    requires action in HandleCommand(m, command).1
    ensures ExecuteOrigin(m, Handle(command), action)
  {
    hide Permitted, PathsOf, ValidReceiveRequest, HasFileId;
    if command.id in m.sessions {
      var session := m.sessions[command.id];
      NoExecute(command.id, session, None, Canceled, false);
      NoExecute(command.id, session, command.fileId, InvalidPathRequest, true);
      NoExecute(command.id, session, command.fileId, DuplicateFileId, true);
      NoExecute(command.id, session, command.fileId, InvalidAction, true);
      NoExecute(command.id, session, command.fileId, NotAuthorized, true);
    }
  }

  lemma {:induction false} RejectEachSilent(m: Manager, ids: seq<Text>, status: StatusText)
    ensures forall a :: a in RejectEach(m, ids, status).1 ==> a.Abort? || a.Write?
    decreases |ids|
  {
    hide RejectSlot, With;
    if ids != [] {
      RejectEachSilent(m, ids[..|ids| - 1], status);
      RejectSilent(RejectEach(m, ids[..|ids| - 1], status).0, ids[|ids| - 1], status);
    }
  }

  lemma RejectSilent(m: Manager, id: Text, status: StatusText)
    ensures forall a :: a in RejectId(m, id, status).1 ==> a.Abort? || a.Write?
  {}

  lemma ApproveExecutes(m: Manager, id: Text, action: Action)
    requires ManagerOk(m) && id in m.sessions && m.sessions[id].phase == AwaitApproval && action in ApproveId(m, id).1
    ensures ExecuteOrigin(m, Approve(m.sessions[id].requestId), action)
  {
    hide ValidReceiveRequest, Permitted;
    if action.Execute? {
      var session := m.sessions[id];
      assert SessionOk(id, session);
      var executions := Executions(session.direction, session.quiet, session.receiveRequests);
      assert action in executions;
      var k :| 0 <= k < |executions| && executions[k] == action;
      assert session.receiveRequests[k].id == id;
    }
  }

  lemma NextExecutes(m: Manager, event: Event, m': Manager, actions: seq<Action>, action: Action)
    requires ManagerOk(m) && Next(m, event, m', actions) && action in actions
    ensures ExecuteOrigin(m, event, action)
  {
    hide HandleCommand, RejectId, RejectEach, Enumerates, ApproveId, ManagerOk;
    match event {
      case Handle(command) => HandleExecutes(m, command, action);
      case Approve(token) =>
        var id :| Waits(m, id, token) && (m', actions) == ApproveId(m, id);
        ApproveExecutes(m, id, action);
      case Reject(token, status) =>
        var id :| Waits(m, id, token) && (m', actions) == RejectId(m, id, status);
        RejectSilent(m, id, status);
      case RejectSession(id, status) => RejectSilent(m, id, status);
      case RejectAll(status) =>
        var ids :| Enumerates(ids, m.sessions.Keys) && (m', actions) == RejectEach(m, ids, status);
        RejectEachSilent(m, ids, status);
    }
  }

  /* ---- Consent safety ---- */

  predicate InPhase(r: Run, k: nat, id: Text, phase: Phase, token: u64, direction: Direction) {
    && k < |r.states| && id in r.states[k].sessions
    && var session := r.states[k].sessions[id];
       session.phase == phase && session.requestId == token && session.direction == direction
  }

  /** Between two calls the session has been there without a break, in one phase, with one token. */
  ghost predicate Throughout(r: Run, first: nat, last: nat, id: Text, phase: Phase, token: u64, direction: Direction) {
    forall k: nat :: first <= k <= last ==> InPhase(r, k, id, phase, token, direction)
  }

  /** A waiting session was prompted for, with its present paths, and has waited ever since. */
  lemma {:induction false} WaitingWasPrompted(r: Run, k: nat, id: Text) returns (prompted: nat)
    requires IsRun(r) && k < |r.states| && id in r.states[k].sessions && r.states[k].sessions[id].phase == AwaitApproval
    ensures prompted < k
    ensures var session := r.states[k].sessions[id];
            && PromptOf(id, session) in r.outs[prompted]
            && Throughout(r, prompted + 1, k, id, AwaitApproval, session.requestId, session.direction)
    decreases k
  {
    hide Next, PathsOf;
    var session := r.states[k].sessions[id];
    NextOrigin(r.states[k - 1], r.events[k - 1], r.states[k], r.outs[k - 1], id);
    if id in r.states[k - 1].sessions && r.states[k - 1].sessions[id] == session {
      prompted := WaitingWasPrompted(r, k - 1, id);
    } else {
      prompted := k - 1;
    }
  }

  /** An approved session was approved, while it waited, by its own token, and has been approved ever since. */
  lemma {:induction false} ApprovedWasApproved(r: Run, k: nat, id: Text) returns (approved: nat)
    requires IsRun(r) && k < |r.states| && id in r.states[k].sessions && r.states[k].sessions[id].phase == Approved
    ensures approved < k
    ensures var session := r.states[k].sessions[id];
            && r.events[approved] == Approve(session.requestId)
            && InPhase(r, approved, id, AwaitApproval, session.requestId, session.direction)
            && Throughout(r, approved + 1, k, id, Approved, session.requestId, session.direction)
    decreases k
  {
    hide Next, PathsOf;
    var session := r.states[k].sessions[id];
    NextOrigin(r.states[k - 1], r.events[k - 1], r.states[k], r.outs[k - 1], id);
    if id in r.states[k - 1].sessions && r.states[k - 1].sessions[id] == session {
      approved := ApprovedWasApproved(r, k - 1, id);
    } else {
      approved := k - 1;
    }
  }

  /**
   * Whatever is handed to the filesystem for a session id was consented to: the user was prompted
   * for this id, this direction and these paths with a token; the approval named that token; and
   * from the prompt to this call the same session has been there without a break.
   */
  lemma ExecuteWasConsented(r: Run, k: nat, action: Action)
    returns (prompted: nat, approved: nat, token: u64, paths: seq<Text>)
    requires IsRun(r) && k < |r.events| && action in r.outs[k] && HandsOver(action)
    ensures prompted < approved <= k
    ensures var id, direction := IdOf(action), DirectionOf(action);
            && RequestApproval(token, id, direction, paths) in r.outs[prompted]
            && r.events[approved] == Approve(token)
            && Throughout(r, prompted + 1, approved, id, AwaitApproval, token, direction)
            && Throughout(r, approved + 1, k, id, Approved, token, direction)
            && InPhase(r, approved, id, AwaitApproval, token, direction)
            && paths == PathsOf(r.states[approved].sessions[id].receiveRequests)
    ensures approved == k ==>
              DirectionOf(action) == FromTerminal
              && (action.Execute? ==> action.command in r.states[k].sessions[IdOf(action)].receiveRequests)
    ensures approved < k ==>
              action.Execute? && r.events[k] == Handle(action.command) && Permitted(action.direction, action.command)
  {
    hide Next, PathsOf, ManagerOk, Permitted;
    RunOk(r, k);
    NextExecutes(r.states[k], r.events[k], r.states[k + 1], r.outs[k], action);
    var id := IdOf(action);
    var session := r.states[k].sessions[id];
    token := session.requestId;
    if session.phase == Approved {
      approved := ApprovedWasApproved(r, k, id);
    } else {
      approved := k;
    }
    assert InPhase(r, approved, id, AwaitApproval, token, DirectionOf(action));
    prompted := WaitingWasPrompted(r, approved, id);
    paths := PathsOf(r.states[approved].sessions[id].receiveRequests);
  }

  /** A session that is gone has nothing handed over until it is prompted for and approved again. */
  lemma NothingAfterTheEnd(r: Run, gone: nat, k: nat, action: Action) returns (prompted: nat, approved: nat)
    requires IsRun(r) && gone <= k < |r.events| && action in r.outs[k] && HandsOver(action)
    requires IdOf(action) !in r.states[gone].sessions
    ensures gone <= prompted < approved <= k
    ensures exists token: u64, paths: seq<Text> ::
              && RequestApproval(token, IdOf(action), DirectionOf(action), paths) in r.outs[prompted]
              && r.events[approved] == Approve(token)
  {
    hide Next;
    var token, paths;
    prompted, approved, token, paths := ExecuteWasConsented(r, k, action);
    var id := IdOf(action);
    forall m: nat | prompted < m <= k
      ensures id in r.states[m].sessions
    {
      assert InPhase(r, m, id, if m <= approved then AwaitApproval else Approved, token, DirectionOf(action));
    }
  }

  /* ---- Ends of approved sessions ---- */

  /** The staging for `id` is dropped before anything is said to its peer. */
  predicate AbortsFirst(actions: seq<Action>, id: Text) {
    exists k :: 0 <= k < |actions| && actions[k] == Abort(id)
      && forall j :: 0 <= j < k ==> !(actions[j].Write? && actions[j].sessionId == id)
  }

  /** The call handed the session's ordinary closing command over. */
  predicate ClosesOrdinarily(session: TransferSession, id: Text, actions: seq<Action>) {
    && |actions| == 1 && actions[0].Execute? && actions[0].command.id == id
    && Closes(session.direction, actions[0].command)
  }

  lemma DropAborts(id: Text, session: TransferSession, fileId: Option<Text>, status: StatusText, isError: bool)
    requires session.phase == Approved
    ensures AbortsFirst(AbortIfApproved(id, session) + StatusResponse(id, fileId, status, session.quiet, isError), id)
  {
    var actions := AbortIfApproved(id, session) + StatusResponse(id, fileId, status, session.quiet, isError);
    assert actions[0] == Abort(id);
  }

  lemma HandleAborts(m: Manager, command: FileTransferCommand, id: Text)
    requires id in m.sessions && m.sessions[id].phase == Approved
    ensures var (m', actions) := HandleCommand(m, command);
            id !in m'.sessions ==> AbortsFirst(actions, id) || ClosesOrdinarily(m.sessions[id], id, actions)
  {
    hide AbortsFirst, ShapeIsValid;
    HandleOthers(m, command, id);
    if command.id == id {
      var session := m.sessions[id];
      DropAborts(id, session, None, Canceled, false);
      DropAborts(id, session, command.fileId, InvalidAction, true);
    }
  }

  lemma RejectAborts(m: Manager, id: Text, status: StatusText)
    requires id in m.sessions && m.sessions[id].phase == Approved
    ensures AbortsFirst(RejectId(m, id, status).1, id)
  {
    DropAborts(id, m.sessions[id], None, status, true);
  }

  lemma {:induction false} RejectEachAborts(m: Manager, ids: seq<Text>, status: StatusText, id: Text)
    requires id in m.sessions && m.sessions[id].phase == Approved
    ensures id in ids ==> AbortsFirst(RejectEach(m, ids, status).1, id)
    ensures id !in ids ==> forall a :: a in RejectEach(m, ids, status).1 ==> !(a.Write? && a.sessionId == id)
    decreases |ids|
  {
    hide RejectId, With, AbortsFirst;
    if ids != [] {
      var initial, last := ids[..|ids| - 1], ids[|ids| - 1];
      assert ids == initial + [last];
      RejectEachAborts(m, initial, status, id);
      RejectEachIs(m, initial, status);
      var before := RejectEach(m, initial, status);
      var more := RejectId(before.0, last, status).1;
      if id in initial {
        AbortsEarlier(before.1, more, id);
      } else if id == last {
        RejectAborts(before.0, id, status);
        AbortsLater(before.1, more, id);
      } else {
        OthersSilent(before.0, last, status, id);
      }
    }
  }

  lemma AbortsEarlier(actions: seq<Action>, more: seq<Action>, id: Text)
    requires AbortsFirst(actions, id)
    ensures AbortsFirst(actions + more, id)
  {
    var k :| 0 <= k < |actions| && actions[k] == Abort(id)
      && forall j :: 0 <= j < k ==> !(actions[j].Write? && actions[j].sessionId == id);
    assert (actions + more)[k] == Abort(id);
  }

  lemma AbortsLater(actions: seq<Action>, more: seq<Action>, id: Text)
    requires AbortsFirst(more, id) && forall a :: a in actions ==> !(a.Write? && a.sessionId == id)
    ensures AbortsFirst(actions + more, id)
  {
    var k :| 0 <= k < |more| && more[k] == Abort(id)
      && forall j :: 0 <= j < k ==> !(more[j].Write? && more[j].sessionId == id);
    assert (actions + more)[|actions| + k] == Abort(id);
  }

  lemma OthersSilent(m: Manager, other: Text, status: StatusText, id: Text)
    requires other != id
    ensures forall a :: a in RejectId(m, other, status).1 ==> !(a.Write? && a.sessionId == id)
  {}

  /** However an approved session ends, it closes in the ordinary way or its staging is aborted before any reply. */
  lemma AbnormalEndAborts(m: Manager, event: Event, m': Manager, actions: seq<Action>, id: Text)
    requires Next(m, event, m', actions)
    requires id in m.sessions && m.sessions[id].phase == Approved && id !in m'.sessions
    ensures AbortsFirst(actions, id) || ClosesOrdinarily(m.sessions[id], id, actions)
  {
    hide HandleCommand, RejectId, RejectEach, AbortsFirst, ClosesOrdinarily, PathsOf;
    match event {
      case Handle(command) => HandleAborts(m, command, id);
      case Approve(token) =>
      case Reject(token, status) =>
        var other :| Waits(m, other, token) && (m', actions) == RejectId(m, other, status);
        RejectIdIs(m, other, status);
        RejectAborts(m, id, status);
      case RejectSession(other, status) =>
        RejectIdIs(m, other, status);
        RejectAborts(m, id, status);
      case RejectAll(status) =>
        var ids :| Enumerates(ids, m.sessions.Keys) && (m', actions) == RejectEach(m, ids, status);
        RejectEachAborts(m, ids, status, id);
    }
  }
}
