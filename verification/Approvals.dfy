/** What an approval releases, said of whole runs: the path requests that the session was given, in their order. */
module Approvals {
  import opened Bytes
  import opened TransferCommands
  import opened TransferManager
  import opened ConsentSafety

  /* ---- The requests a session was given ---- */

  predicate GivenTo(event: Event, id: Text) {
    event.Handle? && event.command.id == id && event.command.action == File
  }

  /** The file commands for `id` among the calls from `first` up to, not including, `last`. */
  function RequestsFor(r: Run, id: Text, first: nat, last: nat): seq<FileTransferCommand>
    requires last <= |r.events|
  {
    if last <= first then [] else
      RequestsFor(r, id, first, last - 1)
      + if GivenTo(r.events[last - 1], id) then [r.events[last - 1].command] else []
  }

  /** The call starts a session as this command asks. */
  predicate Starts(event: Event, id: Text, session: TransferSession) {
    && event.Handle? && event.command.id == id && event.command.quiet == session.quiet
    && match session.direction
       case ToTerminal => event.command.action == Send && session.expectedPaths == 0
       case FromTerminal => event.command.action == Receive && event.command.size == Some(session.expectedPaths)
  }

  predicate Unapproved(m: Manager, id: Text) {
    id in m.sessions && m.sessions[id].phase != Approved
  }

  /** Nothing that an approval or a later call depends on has changed. */
  predicate SameStart(before: TransferSession, after: TransferSession) {
    SameSession(before, after) && before.expectedPaths == after.expectedPaths
  }

  lemma HandleStarts(m: Manager, command: FileTransferCommand, id: Text)
    requires id !in m.sessions && id in HandleCommand(m, command).0.sessions
    ensures var session := HandleCommand(m, command).0.sessions[id];
            Starts(Handle(command), id, session) && session.receiveRequests == []
  {}

  lemma CollectGrows(command: FileTransferCommand, session: TransferSession)
    requires session.phase == CollectReceivePaths && CollectSlot(command, session).slot.Some?
    ensures var after := CollectSlot(command, session).slot.value;
            && command.action == File && SameStart(session, after)
            && after.receiveRequests == session.receiveRequests + [command]
  {
    hide HasFileId, PathsOf;
  }

  lemma LiveGrows(m: Manager, command: FileTransferCommand)
    requires Unapproved(m, command.id) && Unapproved(HandleLive(m, command).0, command.id)
    ensures var before, after := m.sessions[command.id], HandleLive(m, command).0.sessions[command.id];
            && command.action == File && SameStart(before, after)
            && after.receiveRequests == before.receiveRequests + [command]
  {
    hide CollectSlot, SameStart;
    if m.sessions[command.id].phase == CollectReceivePaths && command.action != Cancel {
      CollectGrows(command, m.sessions[command.id]);
    }
  }

  lemma HandleGrows(m: Manager, command: FileTransferCommand, id: Text)
    requires Unapproved(m, id) && Unapproved(HandleCommand(m, command).0, id)
    ensures var before, after := m.sessions[id], HandleCommand(m, command).0.sessions[id];
            && SameStart(before, after)
            && after.receiveRequests == before.receiveRequests + if GivenTo(Handle(command), id) then [command] else []
  {
    hide StartSlot, ContinueSlot, CancelSlot, HandleLive;
    var before := m.sessions[id];
    assert before.receiveRequests + [] == before.receiveRequests;
    if command.id != id {
      HandleOthers(m, command, id);
    } else if command.action !in {Send, Receive} {
      LiveGrows(m, command);
    }
  }

  lemma NextGrows(m: Manager, event: Event, m': Manager, actions: seq<Action>, id: Text)
    requires Next(m, event, m', actions) && Unapproved(m, id) && Unapproved(m', id)
    ensures var before, after := m.sessions[id], m'.sessions[id];
            && SameStart(before, after)
            && after.receiveRequests
               == before.receiveRequests + if GivenTo(event, id) then [event.command] else []
  {
    hide HandleCommand, RejectId, RejectEach, Enumerates, StatusResponse, Executions;
    assert m.sessions[id].receiveRequests + [] == m.sessions[id].receiveRequests;
    match event {
      case Handle(command) => HandleGrows(m, command, id);
      case Approve(token) =>
      case Reject(token, status) =>
        if SomeWaits(m, token) {
          var other :| Waits(m, other, token) && (m', actions) == RejectId(m, other, status);
          RejectIdIs(m, other, status);
        }
      case RejectSession(other, status) => RejectIdIs(m, other, status);
      case RejectAll(status) =>
        var ids :| Enumerates(ids, m.sessions.Keys) && (m', actions) == RejectEach(m, ids, status);
        RejectEachIs(m, ids, status);
    }
  }

  lemma NextStarts(m: Manager, event: Event, m': Manager, actions: seq<Action>, id: Text)
    requires Next(m, event, m', actions) && id !in m.sessions && id in m'.sessions
    ensures Starts(event, id, m'.sessions[id]) && m'.sessions[id].receiveRequests == []
  {
    hide HandleCommand, RejectId, RejectEach, Enumerates, StatusResponse, Executions, Starts;
    match event {
      case Handle(command) => HandleStarts(m, command, id);
      case Approve(token) =>
      case Reject(token, status) =>
        if SomeWaits(m, token) {
          var other :| Waits(m, other, token) && (m', actions) == RejectId(m, other, status);
          RejectIdIs(m, other, status);
        }
      case RejectSession(other, status) => RejectIdIs(m, other, status);
      case RejectAll(status) =>
        var ids :| Enumerates(ids, m.sessions.Keys) && (m', actions) == RejectEach(m, ids, status);
        RejectEachIs(m, ids, status);
    }
  }

  /** An unapproved session stays unapproved backwards in time, as far as it goes. */
  lemma WasUnapproved(m: Manager, event: Event, m': Manager, actions: seq<Action>, id: Text)
    requires Next(m, event, m', actions) && id in m.sessions && Unapproved(m', id)
    ensures Unapproved(m, id)
  {
    hide Next, PromptedIfWaiting;
    NextOrigin(m, event, m', actions, id);
  }

  /** From its start on, a session that is not yet approved holds just the file commands that came for it. */
  lemma {:induction false} RequestsWereGiven(r: Run, k: nat, id: Text) returns (started: nat)
    requires IsRun(r) && k < |r.states| && Unapproved(r.states[k], id)
    ensures started < k && Starts(r.events[started], id, r.states[k].sessions[id])
    ensures id !in r.states[started].sessions && forall j :: started < j <= k ==> id in r.states[j].sessions
    ensures r.states[k].sessions[id].receiveRequests == RequestsFor(r, id, started + 1, k)
    decreases k
  {
    hide Next;
    if id in r.states[k - 1].sessions {
      WasUnapproved(r.states[k - 1], r.events[k - 1], r.states[k], r.outs[k - 1], id);
      started := RequestsWereGiven(r, k - 1, id);
      NextGrows(r.states[k - 1], r.events[k - 1], r.states[k], r.outs[k - 1], id);
    } else {
      started := k - 1;
      NextStarts(r.states[k - 1], r.events[k - 1], r.states[k], r.outs[k - 1], id);
    }
  }

  /* ---- What an approval releases ---- */

  /** How many actions say that the transfer was granted. */
  function Said(quiet: byte): nat {
    if quiet == 0 then 1 else 0
  }

  /** A spoken OK, then every request in order, and only then the end of the listing. */
  predicate Releases(actions: seq<Action>, id: Text, quiet: byte, requests: seq<FileTransferCommand>) {
    && |actions| == Said(quiet) + |requests| + 1
    && (quiet == 0 ==> actions[0] == Write(id, None, Granted))
    && (forall j :: 0 <= j < |requests| ==> actions[Said(quiet) + j] == Execute(FromTerminal, quiet, requests[j]))
    && actions[|actions| - 1] == CompleteReceiveListing(id, quiet)
  }

  lemma ApproveReleases(id: Text, session: TransferSession)
    ensures session.direction == FromTerminal ==>
              Releases(ApproveSlot(id, session).actions, id, session.quiet, session.receiveRequests)
    ensures session.direction == ToTerminal ==>
              ApproveSlot(id, session).actions == if session.quiet == 0 then [Write(id, None, Granted)] else []
    ensures ApproveSlot(id, session).slot.Some? && ApproveSlot(id, session).slot.value.phase == Approved
  {
    var executions := Executions(session.direction, session.quiet, session.receiveRequests);
    assert |executions| == |session.receiveRequests|;
  }

  /** The prompt named these paths, in the order of the requests. */
  predicate NamesOf(paths: seq<Text>, requests: seq<FileTransferCommand>) {
    |paths| == |requests| && forall j :: 0 <= j < |requests| ==> requests[j].name == Some(paths[j])
  }

  lemma {:induction false} PathsAreNames(requests: seq<FileTransferCommand>)
    requires forall j :: 0 <= j < |requests| ==> requests[j].name.Some?
    ensures NamesOf(PathsOf(requests), requests)
    decreases |requests|
  {
    if requests != [] {
      PathsAreNames(requests[..|requests| - 1]);
    }
  }

  lemma RequestsAreNamed(id: Text, session: TransferSession)
    requires SessionOk(id, session)
    ensures NamesOf(PathsOf(session.receiveRequests), session.receiveRequests)
  {
    hide PathsOf, NamesOf;
    PathsAreNames(session.receiveRequests);
  }

  /**
   * Approving a waiting receive session releases exactly the path requests that it was given since
   * its start, one command each, in the order they came, as many as the start had announced. The OK
   * comes first, when it is spoken, and the listing is completed after all of them. The prompt had
   * shown just the names of these requests.
   */
  lemma ApprovalReleasesRequests(r: Run, k: nat, token: u64)
    returns (id: Text, started: nat, prompted: nat, paths: seq<Text>)
    requires IsRun(r) && k < |r.events| && r.events[k] == Approve(token) && SomeWaits(r.states[k], token)
    ensures Waits(r.states[k], id, token) && started <= prompted < k
    ensures var direction := r.states[k].sessions[id].direction;
            && RequestApproval(token, id, direction, paths) in r.outs[prompted]
            && ApprovedAs(r, id, started, k, direction) && InPhase(r, k + 1, id, Approved, token, direction)
            && NamesOf(paths, RequestsFor(r, id, started + 1, k))
  {
    hide Next, PathsOf, ManagerOk, ApproveSlot, SessionOk, NamesOf;
    id := WaiterFound(r.states[k], token, r.states[k + 1], r.outs[k]);
    started := RequestsWereGiven(r, k, id);
    prompted := WaitingWasPrompted(r, k, id);
    var session := r.states[k].sessions[id];
    assert prompted < started ==> InPhase(r, started, id, AwaitApproval, token, session.direction);
    RunOk(r, k);
    SessionIsOk(r.states[k], id);
    RequestsAreNamed(id, session);
    ApproveReleases(id, session);
    CountIsAnnounced(id, session);
    paths := PathsOf(session.receiveRequests);
    NextOrigin(r.states[k], r.events[k], r.states[k + 1], r.outs[k], id);
  }

  /** What an approval returned for a session that a certain call had started. */
  predicate ApprovedAs(r: Run, id: Text, started: nat, k: nat, direction: Direction)
    requires started < k < |r.events| && k < |r.outs|
  {
    && r.events[started].Handle?
    && var start, requests := r.events[started].command, RequestsFor(r, id, started + 1, k);
       match direction
       case FromTerminal =>
         && start.action == Receive && start.id == id && start.size == Some(|requests|)
         && Releases(r.outs[k], id, start.quiet, requests)
       case ToTerminal =>
         && start.action == Send && start.id == id
         && r.outs[k] == if start.quiet == 0 then [Write(id, None, Granted)] else []
  }

  lemma WaiterFound(m: Manager, token: u64, m': Manager, actions: seq<Action>) returns (id: Text)
    requires Next(m, Approve(token), m', actions) && SomeWaits(m, token)
    ensures Waits(m, id, token) && actions == ApproveSlot(id, m.sessions[id]).actions
    ensures m' == With(m, id, ApproveSlot(id, m.sessions[id]).slot)
  {
    id :| Waits(m, id, token) && (m', actions) == ApproveId(m, id);
  }

  lemma CountIsAnnounced(id: Text, session: TransferSession)
    requires SessionOk(id, session) && session.phase == AwaitApproval
    ensures |session.receiveRequests| == session.expectedPaths
  {}
}
