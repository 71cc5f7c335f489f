/** A registration or an acceptance in chunks does what the joined payload would do at once. */
module DndChunks {
  import opened Bytes
  import opened DndMimes
  import opened DndFrames
  import opened DndDestinations

  function PayloadOf(commands: seq<DndCommand>): seq<byte> {
    if commands == [] then [] else PayloadOf(commands[..|commands| - 1]) + commands[|commands| - 1].payload
  }

  /** One message: every command but the last says that more follows. */
  predicate IsMessage(commands: seq<DndCommand>) {
    commands != [] && forall k :: 0 <= k < |commands| ==> (commands[k].more <==> k < |commands| - 1)
  }

  /** Chunks that all announce another. */
  predicate Continues(commands: seq<DndCommand>) {
    forall k :: 0 <= k < |commands| ==> commands[k].more
  }

  predicate Fits(payload: seq<byte>) {
    |payload| <= MAX_DND_MIME_LIST_BYTES
  }

  /** What an idle inbox holds after the first chunks of a message. */
  predicate Midway(inbox: Inbox, payload: seq<byte>) {
    if Fits(payload) then inbox == Inbox(payload, true, false) else inbox.chunking && inbox.discarding
  }

  lemma MidwayReceives(inbox: Inbox, before: seq<byte>, payload: seq<byte>, more: bool)
    requires Midway(inbox, before)
    ensures var r := Receive(inbox, payload, more);
            && (Fits(before + payload) ==>
                  r == if more then Pending(Inbox(before + payload, true, false))
                    else Complete(Inbox(before + payload, false, false)))
            && (!Fits(before + payload) ==>
                  r == if Fits(before) then Overflowed(Inbox([], more, more))
                    else Discarded(inbox.(chunking := more, discarding := more)))
  {}

  lemma IdleReceives(inbox: Inbox, payload: seq<byte>, more: bool)
    requires inbox.Idle()
    ensures var r := Receive(inbox, payload, more);
            && (Fits(payload) ==> r == if more then Pending(Inbox(payload, true, false))
                else Complete(Inbox(payload, false, false)))
            && (!Fits(payload) ==> r == Overflowed(Inbox([], more, more)))
  {}

  lemma PayloadSnoc(commands: seq<DndCommand>, command: DndCommand)
    ensures PayloadOf(commands + [command]) == PayloadOf(commands) + command.payload
  {}

  lemma PayloadOne(command: DndCommand)
    ensures PayloadOf([command]) == command.payload
  {}

  /* ---- Registration ---- */

  function RegisterAll(d: Destination, commands: seq<DndCommand>): (Destination, seq<DndAction>)
    decreases |commands|
  {
    if commands == [] then (d, []) else
      var (before, actions) := RegisterAll(d, commands[..|commands| - 1]);
      var (after, more) := AcceptRegistration(before, commands[|commands| - 1]);
      (after, actions + more)
  }

  /** What the joined payload makes of a destination, at once. */
  function Registered(d: Destination, clientId: u32, payload: seq<byte>): Destination {
    var from := d.(clientId := clientId, registration := EMPTY_INBOX);
    if Fits(payload) && ParseMimePayload(payload).Some?
    then from.(enabled := true, registeredMimes := ParseMimePayload(payload).value)
    else Disabled(from)
  }

  function Emptied(d: Destination): Destination {
    d.(registration := d.registration.(payload := []))
  }

  /** Before the last chunk nothing is announced; a registration that is too long is withdrawn at once. */
  lemma {:induction false} RegisteredMidway(d: Destination, commands: seq<DndCommand>)
    requires d.registration.Idle() && commands != [] && Continues(commands)
    ensures var (end, actions) := RegisterAll(d, commands);
            && actions == [] && Midway(end.registration, PayloadOf(commands))
            && (if Fits(PayloadOf(commands))
                then end == d.(clientId := commands[0].clientId, registration := end.registration)
                else end == Disabled(d.(clientId := commands[0].clientId, registration := end.registration)))
    decreases |commands|
  {
    hide ParseMimePayload, Receive, PayloadOf, Fits;
    var initial, last := commands[..|commands| - 1], commands[|commands| - 1];
    assert commands == initial + [last];
    PayloadSnoc(initial, last);
    if initial == [] {
      PayloadOne(last);
      IdleReceives(d.registration, last.payload, true);
      assert commands == [last] && RegisterAll(d, initial) == (d, []);
    } else {
      RegisteredMidway(d, initial);
      MidwayReceives(RegisterAll(d, initial).0.registration, PayloadOf(initial), last.payload, true);
      LongerStaysLong(PayloadOf(initial), last.payload);
    }
  }

  lemma LongerStaysLong(payload: seq<byte>, more: seq<byte>)
    ensures Fits(payload + more) ==> Fits(payload)
  {}

  /**
   * From an idle state, a registration in any number of chunks enables drops exactly when the joined
   * payload is at most one MiB and a valid list, registers that list, and announces it once.
   */
  lemma ChunkedRegistration(d: Destination, commands: seq<DndCommand>)
    requires d.registration.Idle() && IsMessage(commands)
    ensures var (end, actions) := RegisterAll(d, commands);
            && Emptied(end) == Registered(d, commands[0].clientId, PayloadOf(commands))
            && actions == [RegistrationChanged(end.enabled, end.registeredMimes)]
            && (end.enabled <==> Fits(PayloadOf(commands)) && ParseMimePayload(PayloadOf(commands)).Some?)
  {
    hide ParseMimePayload, Receive, PayloadOf, Fits, RegisterAll;
    var initial, last := commands[..|commands| - 1], commands[|commands| - 1];
    assert commands == initial + [last];
    PayloadSnoc(initial, last);
    RegisterUnfold(d, commands);
    if initial == [] {
      PayloadOne(last);
      IdleReceives(d.registration, last.payload, false);
      assert commands == [last];
      RegisterNothing(d);
    } else {
      RegisteredMidway(d, initial);
      MidwayReceives(RegisterAll(d, initial).0.registration, PayloadOf(initial), last.payload, false);
      LongerStaysLong(PayloadOf(initial), last.payload);
    }
  }

  /** An application that joins a valid list and sends it in chunks has exactly that list registered. */
  lemma RegistersTheList(d: Destination, commands: seq<DndCommand>, mimes: seq<Mime>)
    requires d.registration.Idle() && IsMessage(commands)
    requires ValidMimeList(mimes) && PayloadOf(commands) == JoinMimes(mimes)
    ensures var (end, actions) := RegisterAll(d, commands);
            end.enabled && end.registeredMimes == mimes && actions == [RegistrationChanged(true, mimes)]
  {
    hide ParseMimePayload, PayloadOf, RegisterAll, AllValid;
    ChunkedRegistration(d, commands);
    ParseUndoesJoin(mimes);
  }

  lemma RegisterNothing(d: Destination)
    ensures RegisterAll(d, []) == (d, [])
  {}

  lemma RegisterUnfold(d: Destination, commands: seq<DndCommand>)
    requires commands != []
    ensures var (before, actions) := RegisterAll(d, commands[..|commands| - 1]);
            var (after, more) := AcceptRegistration(before, commands[|commands| - 1]);
            RegisterAll(d, commands) == (after, actions + more)
  {}

  /* ---- Acceptance ---- */

  function AcceptAll(d: Destination, commands: seq<DndCommand>): Destination
    decreases |commands|
  {
    if commands == [] then d else AcceptDropStatus(AcceptAll(d, commands[..|commands| - 1]), commands[|commands| - 1])
  }

  function Refused(d: Destination): Destination {
    d.(acceptanceOperation := NoOperation, acceptedMimes := Some([]))
  }

  /** What the joined payload says about the hovering offer, at once. */
  function Accepted(d: Destination, operation: DndOperation, payload: seq<byte>): Destination {
    var from := d.(acceptance := EMPTY_INBOX, acceptanceOperation := operation);
    if !Fits(payload) then Refused(from)
    else if payload == [] then from.(acceptedMimes := None)
    else if ParseMimePayload(payload).Some? then from.(acceptedMimes := ParseMimePayload(payload))
    else Refused(from)
  }

  function AcceptanceEmptied(d: Destination): Destination {
    d.(acceptance := d.acceptance.(payload := []))
  }

  lemma {:induction false} AcceptedMidway(d: Destination, commands: seq<DndCommand>)
    requires d.acceptance.Idle() && d.hover.Some? && commands != [] && Continues(commands)
    ensures var end := AcceptAll(d, commands);
            && Midway(end.acceptance, PayloadOf(commands))
            && (if Fits(PayloadOf(commands))
                then end == d.(acceptanceOperation := FromClient(commands[0].operation), acceptance := end.acceptance)
                else end == Refused(d.(acceptance := end.acceptance)))
    decreases |commands|
  {
    hide Settled, Receive, PayloadOf, Fits;
    var initial, last := commands[..|commands| - 1], commands[|commands| - 1];
    assert commands == initial + [last];
    PayloadSnoc(initial, last);
    if initial == [] {
      PayloadOne(last);
      IdleReceives(d.acceptance, last.payload, true);
      assert commands == [last] && AcceptAll(d, initial) == d;
    } else {
      AcceptedMidway(d, initial);
      MidwayReceives(AcceptAll(d, initial).acceptance, PayloadOf(initial), last.payload, true);
      LongerStaysLong(PayloadOf(initial), last.payload);
    }
  }

  /** An acceptance in any number of chunks says about the offer what the joined payload says. */
  lemma ChunkedAcceptance(d: Destination, commands: seq<DndCommand>)
    requires d.acceptance.Idle() && d.hover.Some? && IsMessage(commands)
    ensures AcceptanceEmptied(AcceptAll(d, commands))
       == Accepted(d, FromClient(commands[0].operation), PayloadOf(commands))
  {
    hide ParseMimePayload, Receive, PayloadOf, Fits, AcceptAll;
    var initial, last := commands[..|commands| - 1], commands[|commands| - 1];
    assert commands == initial + [last];
    PayloadSnoc(initial, last);
    AcceptUnfold(d, commands);
    if initial == [] {
      PayloadOne(last);
      IdleReceives(d.acceptance, last.payload, false);
      assert commands == [last];
      AcceptNothing(d);
    } else {
      AcceptedMidway(d, initial);
      MidwayReceives(AcceptAll(d, initial).acceptance, PayloadOf(initial), last.payload, false);
      LongerStaysLong(PayloadOf(initial), last.payload);
    }
  }

  lemma AcceptNothing(d: Destination)
    ensures AcceptAll(d, []) == d
  {}

  lemma AcceptUnfold(d: Destination, commands: seq<DndCommand>)
    requires commands != []
    ensures AcceptAll(d, commands) == AcceptDropStatus(AcceptAll(d, commands[..|commands| - 1]),
                                                       commands[|commands| - 1])
  {}
}
