/** Approval tokens over runs: never reused, and without effect once their session is gone. */
module ConsentTokens {
  import opened Bytes
  import opened TransferCommands
  import opened TransferManager
  import opened ConsentSafety

  /** How many tokens have been handed out before call `k`. */
  ghost function Starts(r: Run, k: nat): nat
    requires k < |r.states|
  {
    if k == 0 then 0 else
      Starts(r, k - 1) + (if r.states[k].nextRequestId == r.states[k - 1].nextRequestId then 0 else 1)
  }

  predicate Holds(m: Manager, id: Text, token: u64) {
    id in m.sessions && m.sessions[id].requestId == token
  }

  /** The counter has not wrapped, live tokens were handed out, and no two sessions share one. */
  ghost predicate TokensOk(m: Manager, starts: nat) {
    && m.nextRequestId == starts + 1
    && (forall id :: id in m.sessions ==> 1 <= m.sessions[id].requestId <= starts)
    && forall id, other :: id in m.sessions && other in m.sessions && id != other ==>
         m.sessions[id].requestId != m.sessions[other].requestId
  }

  lemma StartToken(m: Manager, command: FileTransferCommand, direction: Direction)
    ensures var m' := HandleStart(m, command, direction).0;
            m'.nextRequestId == m.nextRequestId || m'.nextRequestId == NextToken(m.nextRequestId)
  {}

  lemma NextCounter(m: Manager, event: Event, m': Manager, actions: seq<Action>)
    requires Next(m, event, m', actions)
    ensures m'.nextRequestId == m.nextRequestId || m'.nextRequestId == NextToken(m.nextRequestId)
  {
    hide HandleStart, HandleLive, RejectId, RejectEach, Enumerates, ApproveSlot;
    match event {
      case Handle(command) =>
        StartToken(m, command, ToTerminal);
        StartToken(m, command, FromTerminal);
        LiveToken(m, command);
      case Approve(token) =>
      case Reject(token, status) =>
        if SomeWaits(m, token) {
          var id :| Waits(m, id, token) && (m', actions) == RejectId(m, id, status);
          RejectIdIs(m, id, status);
        }
      case RejectSession(id, status) => RejectIdIs(m, id, status);
      case RejectAll(status) =>
        var ids :| Enumerates(ids, m.sessions.Keys) && (m', actions) == RejectEach(m, ids, status);
        RejectEachIs(m, ids, status);
    }
  }

  lemma LiveToken(m: Manager, command: FileTransferCommand)
    ensures HandleLive(m, command).0.nextRequestId == m.nextRequestId
  {}

  /** A session's token was its token before, or the next one, handed to the one session that starts. */
  lemma TokenOrigin(m: Manager, event: Event, m': Manager, actions: seq<Action>)
    requires Next(m, event, m', actions)
    ensures forall id :: id in m'.sessions ==>
              || (id in m.sessions && m.sessions[id].requestId == m'.sessions[id].requestId)
              || (event.Handle? && event.command.id == id && m'.sessions[id].requestId == m.nextRequestId
                  && m'.nextRequestId == NextToken(m.nextRequestId))
  {
    hide Next, PromptedIfWaiting;
    forall id | id in m'.sessions
      ensures
        || (id in m.sessions && m.sessions[id].requestId == m'.sessions[id].requestId)
        || (event.Handle? && event.command.id == id && m'.sessions[id].requestId == m.nextRequestId
            && m'.nextRequestId == NextToken(m.nextRequestId))
    {
      NextOrigin(m, event, m', actions, id);
    }
  }

  /** The counter moves only when it hands a token out, and must not reach its last value. */
  lemma TokensStep(m: Manager, event: Event, m': Manager, actions: seq<Action>, starts: nat)
    requires Next(m, event, m', actions) && TokensOk(m, starts)
    requires m'.nextRequestId != m.nextRequestId ==> starts + 2 < U64_LIMIT
    ensures TokensOk(m', if m'.nextRequestId == m.nextRequestId then starts else starts + 1)
  {
    NextCounter(m, event, m', actions);
    TokenOrigin(m, event, m', actions);
    hide Next;
  }

  /** While fewer than 2^64 - 1 tokens have been handed out, none is shared and the counter has not wrapped. */
  lemma {:induction false} RunTokens(r: Run, k: nat)
    requires IsRun(r) && k < |r.states| && Starts(r, k) + 1 < U64_LIMIT
    ensures TokensOk(r.states[k], Starts(r, k))
  {
    if k > 0 {
      hide Next, TokensOk;
      RunTokens(r, k - 1);
      TokensStep(r.states[k - 1], r.events[k - 1], r.states[k], r.outs[k - 1], Starts(r, k - 1));
    }
  }

  lemma {:induction false} StartsGrow(r: Run, j: nat, k: nat)
    requires j <= k < |r.states|
    ensures Starts(r, j) <= Starts(r, k)
    decreases k
  {
    if j < k {
      StartsGrow(r, j, k - 1);
    }
  }

  /** A token that was already handed out is held later only by the session that held it before. */
  lemma {:induction false} HolderPersists(r: Run, j: nat, k: nat, id: Text, token: u64)
    requires IsRun(r) && j <= k < |r.states| && Starts(r, k) + 1 < U64_LIMIT
    requires token < r.states[j].nextRequestId && Holds(r.states[k], id, token)
    ensures Holds(r.states[j], id, token)
    ensures r.states[k].sessions[id].phase == CollectReceivePaths ==>
              r.states[j].sessions[id].phase == CollectReceivePaths
    decreases k
  {
    hide Next, PromptedIfWaiting;
    if j < k {
      NextOrigin(r.states[k - 1], r.events[k - 1], r.states[k], r.outs[k - 1], id);
      StartsGrow(r, j, k - 1);
      StartsGrow(r, k - 1, k);
      RunTokens(r, j);
      RunTokens(r, k - 1);
      HeldBefore(r, k, id, token);
      HolderPersists(r, j, k - 1, id, token);
    }
  }

  lemma HeldBefore(r: Run, k: nat, id: Text, token: u64)
    requires IsRun(r) && 0 < k < |r.states| && Holds(r.states[k], id, token) && token < r.states[k - 1].nextRequestId
    requires Origin(r.states[k - 1], r.events[k - 1], r.states[k], r.outs[k - 1], id)
    ensures Holds(r.states[k - 1], id, token)
    ensures r.states[k].sessions[id].phase == CollectReceivePaths ==>
              r.states[k - 1].sessions[id].phase == CollectReceivePaths
  {}

  /** A token whose session is gone does nothing, now or later. */
  lemma StaleTokenIsInert(r: Run, gone: nat, k: nat, token: u64)
    requires IsRun(r) && gone <= k < |r.events| && Starts(r, k) + 1 < U64_LIMIT
    requires token < r.states[gone].nextRequestId
    requires forall id: Text :: !Holds(r.states[gone], id, token)
    ensures r.events[k] == Approve(token) || (r.events[k].Reject? && r.events[k].token == token) ==>
              r.states[k + 1] == r.states[k] && r.outs[k] == []
  {
    forall id: Text
      ensures !Waits(r.states[k], id, token)
    {
      if Holds(r.states[k], id, token) {
        HolderPersists(r, gone, k, id, token);
      }
    }
    assert !SomeWaits(r.states[k], token);
    assert Next(r.states[k], r.events[k], r.states[k + 1], r.outs[k]);
  }

  /* ---- Prompts ---- */

  /** A prompt names a session that now waits under its token, and that was not waiting before. */
  ghost predicate PromptOrigin(m: Manager, m': Manager, action: Action) {
    action.RequestApproval? ==>
      var id, token := action.sessionId, action.requestId;
      && Waits(m', id, token)
      && if id in m.sessions then Holds(m, id, token) && m.sessions[id].phase == CollectReceivePaths
         else token == m.nextRequestId && m'.nextRequestId == NextToken(token)
  }

  lemma NoPrompt(id: Text, session: TransferSession, fileId: Option<Text>, status: StatusText, isError: bool)
    ensures var actions := AbortIfApproved(id, session) + StatusResponse(id, fileId, status, session.quiet, isError);
            forall a :: a in actions ==>
              !a.RequestApproval?
  {}

  lemma HandlePrompts(m: Manager, command: FileTransferCommand, action: Action)
    requires action in HandleCommand(m, command).1
    ensures PromptOrigin(m, HandleCommand(m, command).0, action)
  {
    hide Permitted, PathsOf, ValidReceiveRequest, HasFileId;
    if command.id in m.sessions {
      var session := m.sessions[command.id];
      NoPrompt(command.id, session, None, Canceled, false);
      NoPrompt(command.id, session, command.fileId, InvalidPathRequest, true);
      NoPrompt(command.id, session, command.fileId, DuplicateFileId, true);
      NoPrompt(command.id, session, command.fileId, InvalidAction, true);
      NoPrompt(command.id, session, command.fileId, NotAuthorized, true);
    }
  }

  lemma NextPrompts(m: Manager, event: Event, m': Manager, actions: seq<Action>, action: Action)
    requires Next(m, event, m', actions) && action in actions
    ensures PromptOrigin(m, m', action)
  {
    hide HandleCommand, RejectId, RejectEach, Enumerates;
    match event {
      case Handle(command) => HandlePrompts(m, command, action);
      case Approve(token) =>
      case Reject(token, status) =>
        var id :| Waits(m, id, token) && (m', actions) == RejectId(m, id, status);
        RejectSilent(m, id, status);
      case RejectSession(id, status) => RejectSilent(m, id, status);
      case RejectAll(status) =>
        var ids :| Enumerates(ids, m.sessions.Keys) && (m', actions) == RejectEach(m, ids, status);
        RejectEachSilent(m, ids, status);
    }
  }

  /** No two prompts of a run carry the same token. */
  lemma PromptTokensDiffer(r: Run, j: nat, k: nat, first: Action, second: Action)
    requires IsRun(r) && j < k < |r.events| && Starts(r, k + 1) + 1 < U64_LIMIT
    requires first in r.outs[j] && first.RequestApproval? && second in r.outs[k] && second.RequestApproval?
    ensures first.requestId != second.requestId
  {
    hide Next;
    NextPrompts(r.states[j], r.events[j], r.states[j + 1], r.outs[j], first);
    NextPrompts(r.states[k], r.events[k], r.states[k + 1], r.outs[k], second);
    StartsGrow(r, j + 1, k);
    StartsGrow(r, k, k + 1);
    RunTokens(r, j + 1);
    RunTokens(r, k);
    var token := first.requestId;
    if second.requestId == token && second.sessionId in r.states[k].sessions {
      HolderPersists(r, j + 1, k, second.sessionId, token);
    }
  }
}
