/** Manager and executor stay coupled when every action is delivered in order. */
module Coupling {
  import opened Bytes
  import opened TransferCommands
  import opened TransferManager
  import opened ConsentSafety
  import opened TransferFilesystem

  predicate ApprovedIn(m: Manager, id: Text, direction: Direction) {
    id in m.sessions && m.sessions[id].phase == Approved && m.sessions[id].direction == direction
  }

  /** Every session the executor holds is an approved session of the manager, of the same direction. */
  ghost predicate Coupled(m: Manager, ids: Ids) {
    forall direction: Direction, id: Text :: id in ids.Of(direction) ==> ApprovedIn(m, id, direction)
  }

  predicate SomeTouches(actions: seq<Action>, direction: Direction, id: Text) {
    exists k :: 0 <= k < |actions| && Touches(actions[k], direction, id)
  }

  predicate SomeRemoves(actions: seq<Action>, direction: Direction, id: Text) {
    exists k :: 0 <= k < |actions| && Removes(actions[k], direction, id)
  }

  /** A session that is there in the end was touched, or was there from the start and never removed. */
  lemma {:induction false} KeptOrTouched(actions: seq<Action>, before: Ids, after: Ids, direction: Direction, id: Text)
    requires DeliveredAll(actions, before, after) && id in after.Of(direction)
    ensures SomeTouches(actions, direction, id) || (id in before.Of(direction) && !SomeRemoves(actions, direction, id))
    decreases |actions|
  {
    hide Touches, Removes;
    if actions != [] {
      var initial, last := actions[..|actions| - 1], actions[|actions| - 1];
      var between: Ids :| DeliveredAll(initial, before, between) && Delivered(last, between, after);
      if Touches(last, direction, id) {
        assert Touches(actions[|actions| - 1], direction, id);
      } else {
        KeptOrTouched(initial, before, between, direction, id);
        if SomeTouches(initial, direction, id) {
          var k :| 0 <= k < |initial| && Touches(initial[k], direction, id);
          assert Touches(actions[k], direction, id);
        }
      }
    }
  }

  /* ---- What is touched is approved ---- */

  lemma HandleTouches(m: Manager, command: FileTransferCommand, action: Action, direction: Direction, id: Text)
    requires action in HandleCommand(m, command).1 && Touches(action, direction, id)
    ensures ApprovedIn(HandleCommand(m, command).0, id, direction)
  {
    HandleExecutes(m, command, action);
    ApprovedStays(m, command);
  }

  lemma ApprovedStays(m: Manager, command: FileTransferCommand)
    requires command.id in m.sessions && m.sessions[command.id].phase == Approved
    requires Permitted(m.sessions[command.id].direction, command) && !Closes(m.sessions[command.id].direction, command)
    ensures ApprovedIn(HandleCommand(m, command).0, command.id, m.sessions[command.id].direction)
  {}

  lemma ApproveTouches(m: Manager, other: Text, action: Action, direction: Direction, id: Text)
    requires ManagerOk(m) && other in m.sessions && m.sessions[other].phase == AwaitApproval
    requires action in ApproveId(m, other).1 && Touches(action, direction, id)
    ensures ApprovedIn(ApproveId(m, other).0, id, direction)
  {
    hide ManagerOk;
    if action.Execute? {
      ApproveExecutes(m, other, action);
      SessionIsOk(m, other);
      ApproveNames(m, other, action);
    }
  }

  lemma ApproveNames(m: Manager, other: Text, action: Action)
    requires other in m.sessions && SessionOk(other, m.sessions[other])
    requires action in ApproveId(m, other).1 && action.Execute?
    ensures action.command.id == other && action.direction == m.sessions[other].direction
  {}

  lemma TouchedIsApproved(m: Manager, event: Event, m': Manager, actions: seq<Action>, direction: Direction, id: Text)
    requires ManagerOk(m) && Next(m, event, m', actions) && SomeTouches(actions, direction, id)
    ensures ApprovedIn(m', id, direction)
  {
    hide HandleCommand, RejectId, RejectEach, Enumerates, ApproveId, ManagerOk, Touches, ApprovedIn;
    var k :| 0 <= k < |actions| && Touches(actions[k], direction, id);
    var action := actions[k];
    match event {
      case Handle(command) => HandleTouches(m, command, action, direction, id);
      case Approve(token) =>
        var other :| Waits(m, other, token) && (m', actions) == ApproveId(m, other);
        ApproveTouches(m, other, action, direction, id);
      case Reject(token, status) =>
        var other :| Waits(m, other, token) && (m', actions) == RejectId(m, other, status);
        RejectSilent(m, other, status);
        NoTouch(action, direction, id);
      case RejectSession(other, status) =>
        RejectSilent(m, other, status);
        NoTouch(action, direction, id);
      case RejectAll(status) =>
        var ids :| Enumerates(ids, m.sessions.Keys) && (m', actions) == RejectEach(m, ids, status);
        RejectEachSilent(m, ids, status);
        NoTouch(action, direction, id);
    }
  }

  lemma NoTouch(action: Action, direction: Direction, id: Text)
    ensures action.Abort? || action.Write? ==> !Touches(action, direction, id)
  {}

  /* ---- What is not removed stays approved ---- */

  lemma UnremovedStays(m: Manager, event: Event, m': Manager, actions: seq<Action>, direction: Direction, id: Text)
    requires Next(m, event, m', actions) && ApprovedIn(m, id, direction) && !SomeRemoves(actions, direction, id)
    ensures ApprovedIn(m', id, direction)
  {
    hide Next, PromptedIfWaiting, SomeRemoves, AbortsFirst, ClosesOrdinarily;
    NextOrigin(m, event, m', actions, id);
    if id !in m'.sessions {
      AbnormalEndAborts(m, event, m', actions, id);
      if ClosesOrdinarily(m.sessions[id], id, actions) {
        ClosingRemoves(m.sessions[id], id, actions, m, event, m');
      } else {
        AbortRemoves(actions, direction, id);
      }
    }
  }

  lemma AbortRemoves(actions: seq<Action>, direction: Direction, id: Text)
    requires AbortsFirst(actions, id)
    ensures SomeRemoves(actions, direction, id)
  {}

  lemma ClosingRemoves(session: TransferSession, id: Text, actions: seq<Action>, m: Manager, event: Event, m': Manager)
    requires ClosesOrdinarily(session, id, actions)
    requires Next(m, event, m', actions) && id in m.sessions && m.sessions[id] == session && session.phase == Approved
    ensures SomeRemoves(actions, session.direction, id)
  {
    hide Next;
    assert actions[0] in actions;
    ClosingDirection(m, event, m', actions);
    assert Removes(actions[0], session.direction, id);
  }

  /** A command handed over alone belongs to its session's direction. */
  lemma ClosingDirection(m: Manager, event: Event, m': Manager, actions: seq<Action>)
    requires Next(m, event, m', actions) && |actions| == 1 && actions[0].Execute?
    requires actions[0].command.id in m.sessions && m.sessions[actions[0].command.id].phase == Approved
    ensures actions[0].direction == m.sessions[actions[0].command.id].direction
  {
    hide RejectId, RejectEach, Enumerates, HandleCommand, ApproveId;
    var action := actions[0];
    assert action in actions;
    match event {
      case Handle(command) => HandleExecutes(m, command, action);
      case Approve(token) =>
        var other :| Waits(m, other, token) && (m', actions) == ApproveId(m, other);
        ApproveSaysMore(m, other);
      case Reject(token, status) =>
        var other :| Waits(m, other, token) && (m', actions) == RejectId(m, other, status);
        RejectSilent(m, other, status);
      case RejectSession(other, status) => RejectSilent(m, other, status);
      case RejectAll(status) =>
        var ids :| Enumerates(ids, m.sessions.Keys) && (m', actions) == RejectEach(m, ids, status);
        RejectEachSilent(m, ids, status);
    }
  }

  lemma ApproveSaysMore(m: Manager, other: Text)
    requires other in m.sessions && m.sessions[other].phase == AwaitApproval
    ensures var actions := ApproveId(m, other).1; !(|actions| == 1 && actions[0].Execute?)
  {}

  /* ---- Coupling over runs ---- */

  /** One call, with everything it returned delivered in order, keeps manager and executor coupled. */
  lemma StepCoupled(m: Manager, event: Event, m': Manager, actions: seq<Action>, before: Ids, after: Ids)
    requires ManagerOk(m) && Next(m, event, m', actions)
    requires Coupled(m, before) && DeliveredAll(actions, before, after)
    ensures Coupled(m', after)
  {
    hide ManagerOk, Next, DeliveredAll, ApprovedIn, SomeTouches, SomeRemoves;
    forall direction: Direction, id: Text | id in after.Of(direction)
      ensures ApprovedIn(m', id, direction)
    {
      KeptOrTouched(actions, before, after, direction, id);
      if SomeTouches(actions, direction, id) {
        TouchedIsApproved(m, event, m', actions, direction, id);
      } else {
        UnremovedStays(m, event, m', actions, direction, id);
      }
    }
  }

  /** Coupled tables share no id, and hold no more sessions than the manager. */
  lemma CoupledIsSmall(m: Manager, ids: Ids)
    requires ManagerOk(m) && Coupled(m, ids)
    ensures ids.send !! ids.receive
    ensures |ids.send| + |ids.receive| <= |m.sessions| <= MAX_ACTIVE_SESSIONS
  {
    hide SessionOk;
    forall id | id in ids.send ensures ApprovedIn(m, id, ToTerminal) {
      assert id in ids.Of(ToTerminal);
    }
    forall id | id in ids.receive ensures ApprovedIn(m, id, FromTerminal) {
      assert id in ids.Of(FromTerminal);
    }
    SizeOfSubset(ids.send + ids.receive, m.sessions.Keys);
  }

  /** The executor starts empty and is given all that each call returns, in order. */
  ghost predicate DeliversAll(r: Run, ids: seq<Ids>) {
    && |ids| == |r.states| && |r.outs| + 1 == |r.states|
    && ids[0] == Ids({}, {})
    && forall k :: 0 <= k < |r.outs| ==> DeliveredAll(r.outs[k], ids[k], ids[k + 1])
  }

  /** Over every run, after every call, the two tables agree. */
  lemma {:induction false} RunCoupled(r: Run, ids: seq<Ids>, k: nat)
    requires IsRun(r) && DeliversAll(r, ids) && k < |r.states|
    ensures Coupled(r.states[k], ids[k])
    ensures ids[k].send !! ids[k].receive
    ensures |ids[k].send| + |ids[k].receive| <= |r.states[k].sessions| <= MAX_ACTIVE_SESSIONS
  {
    hide Next, DeliveredAll, ManagerOk, Coupled;
    RunOk(r, k);
    if k == 0 {
      NothingCoupled(r.states[0], ids[0]);
    } else {
      RunCoupled(r, ids, k - 1);
      RunOk(r, k - 1);
      StepCoupled(r.states[k - 1], r.events[k - 1], r.states[k], r.outs[k - 1], ids[k - 1], ids[k]);
    }
    CoupledIsSmall(r.states[k], ids[k]);
  }

  lemma NothingCoupled(m: Manager, ids: Ids)
    requires ids == Ids({}, {})
    ensures Coupled(m, ids)
  {}

  /* ---- The executor's expectations ---- */

  /** Whatever a run hands to the executor names the file and path that the executor expects. */
  lemma RunIsExecutable(r: Run, k: nat, action: Action)
    requires IsRun(r) && k < |r.events| && action in r.outs[k]
    ensures Executable(action)
  {
    hide Next, ManagerOk;
    if action.Execute? {
      RunOk(r, k);
      NextExecutes(r.states[k], r.events[k], r.states[k + 1], r.outs[k], action);
      AuthorizedIsShaped(r.states[k], r.events[k], action);
    }
  }

  lemma AuthorizedIsShaped(m: Manager, event: Event, action: Action)
    requires ManagerOk(m) && action.Execute? && ExecuteOrigin(m, event, action)
    ensures Executable(action)
  {}
}
