/** What holds over every run of a drop destination. */
module DndRuns {
  import opened Bytes
  import opened DndMimes
  import opened DndFrames
  import opened DndDestinations

  datatype Event =
    | Command(command: DndCommand, base64: seq<byte> -> seq<byte>)
    | Moved(location: DndLocation, allowed: DndOperation, offered: seq<Mime>)
    | Left
    | Released(location: DndLocation, allowed: DndOperation, data: seq<DropData>)

  function After(d: Destination, e: Event): Destination {
    match e
    case Command(command, base64) => HandleCommand(d, command, base64).0
    case Moved(location, allowed, offered) => DragMoved(d, location, allowed, offered).0
    case Left => DragLeft(d).0
    case Released(location, allowed, data) => Dropped(d, location, allowed, data).0
  }

  /** The destination before event `k` of a run from the start. */
  function StateAt(events: seq<Event>, k: nat): Destination
    requires k <= |events|
  {
    if k == 0 then INITIAL else After(StateAt(events, k - 1), events[k - 1])
  }

  /* ---- What every state keeps ---- */

  /** Buffers, lists and retained data are bounded; a disabled destination has nothing registered. */
  predicate DestinationOk(d: Destination) {
    && |d.registration.payload| <= MAX_DND_MIME_LIST_BYTES && |d.acceptance.payload| <= MAX_DND_MIME_LIST_BYTES
    && (d.registration.discarding ==> d.registration.chunking) && (d.acceptance.discarding ==> d.acceptance.chunking)
    && ValidMimeList(d.registeredMimes) && (!d.enabled ==> d.registeredMimes == [])
    && (d.acceptedMimes.Some? ==> ValidMimeList(d.acceptedMimes.value))
    && (d.hover.Some? ==> ValidMimeList(d.hover.value.offeredMimes))
    && (d.hover.None? ==> d.acceptanceOperation == NoOperation && d.acceptance == EMPTY_INBOX)
    && (d.droppedData.Some? ==>
          TotalSize(d.droppedData.value) <= MAX_LOCAL_DROP_BYTES && ValidMimeList(MimesOf(d.droppedData.value)))
  }

  lemma NoMimes()
    ensures ValidMimeList([])
  {}

  predicate InboxOk(inbox: Inbox) {
    |inbox.payload| <= MAX_DND_MIME_LIST_BYTES && (inbox.discarding ==> inbox.chunking)
  }

  lemma ReceiveOk(inbox: Inbox, payload: seq<byte>, more: bool)
    requires InboxOk(inbox)
    ensures InboxOk(Receive(inbox, payload, more).inbox)
  {}

  lemma RegistrationOk(d: Destination, command: DndCommand)
    requires DestinationOk(d)
    ensures DestinationOk(AcceptRegistration(d, command).0)
  {
    hide ValidMimeList, ParseMimePayload, Receive, TotalSize;
    NoMimes();
    ReceiveOk(d.registration, command.payload, command.more);
    ParsedIsValid(Receive(d.registration, command.payload, command.more).inbox.payload);
  }

  lemma SettledOk(d: Destination)
    requires DestinationOk(d) && d.hover.Some?
    ensures DestinationOk(Settled(d))
  {
    hide ValidMimeList, ParseMimePayload, TotalSize;
    NoMimes();
    ParsedIsValid(d.acceptance.payload);
  }

  lemma AcceptanceOk(d: Destination, command: DndCommand)
    requires DestinationOk(d)
    ensures DestinationOk(AcceptDropStatus(d, command))
  {
    hide ValidMimeList, Settled, Receive, TotalSize;
    NoMimes();
    if d.hover.Some? {
      ReceiveOk(d.acceptance, command.payload, command.more);
      var from := if d.acceptance.Idle() then d.(acceptanceOperation := FromClient(command.operation)) else d;
      SettledOk(from.(acceptance := Receive(d.acceptance, command.payload, command.more).inbox));
    }
  }

  lemma ClearedOk(d: Destination)
    requires DestinationOk(d)
    ensures DestinationOk(ClearDrag(d))
  {}

  lemma ServedOk(d: Destination, command: DndCommand, base64: seq<byte> -> seq<byte>)
    requires DestinationOk(d)
    ensures DestinationOk(ServeDropRequest(d, command, base64).0)
  {
    hide DestinationOk, DataActions;
    ClearedOk(d);
  }

  lemma MovedOk(d: Destination, location: DndLocation, allowed: DndOperation, offered: seq<Mime>)
    requires DestinationOk(d)
    ensures DestinationOk(DragMoved(d, location, allowed, offered).0)
  {
    hide ValidMimeList, ValidateMimeList, JoinMimes, TotalSize;
    ValidationIsExact(offered);
  }

  lemma DroppedOk(d: Destination, location: DndLocation, allowed: DndOperation, data: seq<DropData>)
    requires DestinationOk(d)
    ensures DestinationOk(Dropped(d, location, allowed, data).0)
  {
    hide ValidMimeList, ValidateMimeList, JoinMimes, TotalSize, AllValid, AcceptsOneOf;
    ClearedOk(d);
    ValidationIsExact(MimesOf(data));
  }

  lemma AfterOk(d: Destination, e: Event)
    requires DestinationOk(d)
    ensures DestinationOk(After(d, e))
  {
    hide DestinationOk, AcceptRegistration, AcceptDropStatus, ServeDropRequest, DragMoved, Dropped;
    match e {
      case Command(command, base64) =>
        RegistrationOk(d, command);
        AcceptanceOk(d, command);
        ServedOk(d, command, base64);
        InitialOk();
      case Moved(location, allowed, offered) => MovedOk(d, location, allowed, offered);
      case Left => ClearedOk(d);
      case Released(location, allowed, data) => DroppedOk(d, location, allowed, data);
    }
  }

  lemma InitialOk()
    ensures DestinationOk(INITIAL)
  {}

  lemma {:induction false} RunOk(events: seq<Event>, k: nat)
    requires k <= |events|
    ensures DestinationOk(StateAt(events, k))
    decreases k
  {
    hide DestinationOk, After;
    if k == 0 {
      InitialOk();
    } else {
      RunOk(events, k - 1);
      AfterOk(StateAt(events, k - 1), events[k - 1]);
    }
  }
}
