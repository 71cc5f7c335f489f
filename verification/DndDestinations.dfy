/** The destination side of OSC 72 drag and drop: its state, what each call does, and the object itself. */
module DndDestinations {
  import opened Bytes
  import opened DndMimes
  import opened DndFrames

  const MAX_LOCAL_DROP_BYTES := 16 * 1024 * 1024

  datatype DndCommand = DndCommand(
    commandType: DndCommandType,
    more: bool,
    clientId: u32,
    operation: u32,
    location: DndLocation,
    payload: seq<byte>)

  datatype DropData = DropData(mimeType: Mime, data: seq<byte>)

  datatype HoverState = HoverState(offeredMimes: seq<Mime>, allowedOperation: DndOperation)

  /** The error texts of data requests, by name; each fits one frame. */
  datatype RequestErrorText =
    | NothingDropped  // EPERM:drop data can only be requested after a drop
    | RemoteItems  // EINVAL:remote item and directory requests are not enabled
    | BadMimeIndex  // ENOENT:invalid MIME index

  datatype DndAction =
    | WriteCapability(clientId: u32)
    | WriteFrame(frame: DndFrame)
    | WriteError(clientId: u32, location: DndLocation, text: RequestErrorText)
    | RegistrationChanged(enabled: bool, mimeTypes: seq<Mime>)
    | DropFinished(operation: DndOperation)

  function FromClient(value: u32): DndOperation {
    if value == 1 then Copy else if value == 2 then Move else NoOperation
  }

  /** A message that may still be arriving in chunks; `discarding` drops what is left of one too long. */
  datatype Inbox = Inbox(payload: seq<byte>, chunking: bool, discarding: bool)
  {
    predicate Idle() {
      !chunking && !discarding
    }
  }

  const EMPTY_INBOX := Inbox([], false, false)

  datatype Destination = Destination(
    enabled: bool,
    clientId: u32,
    registeredMimes: seq<Mime>,
    registration: Inbox,
    acceptance: Inbox,
    acceptanceOperation: DndOperation,
    acceptedMimes: Option<seq<Mime>>,
    hover: Option<HoverState>,
    droppedData: Option<seq<DropData>>)

  const INITIAL := Destination(false, 0, [], EMPTY_INBOX, EMPTY_INBOX, NoOperation, None, None, None)

  /* ---- What the application accepts ---- */

  /** Without a list of its own the application takes any offered type. */
  predicate AcceptsOneOf(accepted: Option<seq<Mime>>, offered: seq<Mime>) {
    match accepted
    case None => offered != []
    case Some(mimes) => exists mime :: mime in mimes && mime in offered
  }

  function AcceptedOperation(d: Destination): DndOperation {
    if d.hover.None? then NoOperation
    else if !d.hover.value.allowedOperation.Permits(d.acceptanceOperation)
      || !AcceptsOneOf(d.acceptedMimes, d.hover.value.offeredMimes)
      then NoOperation
    else d.acceptanceOperation
  }

  function ClearDrag(d: Destination): Destination {
    d.(acceptance := EMPTY_INBOX, acceptanceOperation := NoOperation, acceptedMimes := None, hover := None,
       droppedData := None)
  }

  /* ---- Messages in chunks ---- */

  /** What one chunk makes of a message. */
  datatype Received =
    | Pending(inbox: Inbox)
    | Discarded(inbox: Inbox)
    | Overflowed(inbox: Inbox)
    | Complete(inbox: Inbox)

  function Receive(inbox: Inbox, payload: seq<byte>, more: bool): Received {
    var start := if inbox.Idle() then inbox.(payload := []) else inbox;
    if start.discarding then Discarded(start.(chunking := more, discarding := more))
    else if |start.payload| + |payload| > MAX_DND_MIME_LIST_BYTES then Overflowed(Inbox([], more, more))
    else
      var next := start.(payload := start.payload + payload, chunking := more);
      if more then Pending(next) else Complete(next)
  }

  /* ---- Registration ---- */

  function Disabled(d: Destination): Destination {
    d.(enabled := false, registeredMimes := [])
  }

  const NOW_DISABLED: seq<DndAction> := [RegistrationChanged(false, [])]

  function AcceptRegistration(d: Destination, command: DndCommand): (Destination, seq<DndAction>) {
    var from := if d.registration.Idle() then d.(clientId := command.clientId) else d;
    match Receive(d.registration, command.payload, command.more)
    case Pending(inbox) => (from.(registration := inbox), [])
    case Discarded(inbox) =>
      if command.more then (from.(registration := inbox), [])
      else (Disabled(from.(registration := inbox)), NOW_DISABLED)
    case Overflowed(inbox) => (Disabled(from.(registration := inbox)), if command.more then [] else NOW_DISABLED)
    case Complete(inbox) =>
      match ParseMimePayload(inbox.payload)
      case None => (Disabled(from.(registration := inbox)), NOW_DISABLED)
      case Some(mimes) =>
        (from.(registration := inbox, enabled := true, registeredMimes := mimes), [RegistrationChanged(true, mimes)])
  }

  /* ---- Acceptance ---- */

  /** A whole acceptance: no types for any type, a list, or a refusal where it is no list. */
  function Settled(d: Destination): Destination {
    if d.acceptance.payload == [] then d.(acceptedMimes := None) else
      match ParseMimePayload(d.acceptance.payload)
      case Some(mimes) => d.(acceptedMimes := Some(mimes))
      case None => d.(acceptanceOperation := NoOperation, acceptedMimes := Some([]))
  }

  function AcceptDropStatus(d: Destination, command: DndCommand): Destination {
    if d.hover.None? then d else
      var from := if d.acceptance.Idle() then d.(acceptanceOperation := FromClient(command.operation)) else d;
      match Receive(d.acceptance, command.payload, command.more)
      case Pending(inbox) => from.(acceptance := inbox)
      case Discarded(inbox) => from.(acceptance := inbox)
      case Overflowed(inbox) =>
        from.(acceptance := inbox, acceptanceOperation := NoOperation, acceptedMimes := Some([]))
      case Complete(inbox) => Settled(from.(acceptance := inbox))
  }

  /* ---- Dragging and dropping ---- */

  predicate OfferChanged(d: Destination, allowed: DndOperation, offered: seq<Mime>) {
    d.hover.None? || d.hover.value != HoverState(offered, allowed)
  }

  function DragMoved(d: Destination, location: DndLocation, allowed: DndOperation, offered: seq<Mime>)
    : (Destination, Result<seq<DndFrame>, DndError>)
  {
    if !d.enabled then (d, Err(NotEnabled))
    else if ValidateMimeList(offered).Some? then (d, Err(ValidateMimeList(offered).value))
    else
      var changed := OfferChanged(d, allowed, offered);
      var reset := if changed then d.(acceptanceOperation := NoOperation, acceptedMimes := None) else d;
      (reset.(hover := Some(HoverState(offered, allowed))),
       Ok(EncodeFrames(DndHeader(DropMove, Some(allowed), Some(location)), d.clientId,
                       if changed then JoinMimes(offered) else [])))
  }

  const OUTSIDE := DndLocation(-1, -1, 0, 0)

  /** A leave while a drop waits to be finished changes nothing. */
  function DragLeft(d: Destination): (Destination, seq<DndFrame>) {
    if d.droppedData.Some? || !d.enabled || d.hover.None? then (d, [])
    else (ClearDrag(d), EncodeFrames(DndHeader(DropMove, Some(NoOperation), Some(OUTSIDE)), d.clientId, []))
  }

  function TotalSize(data: seq<DropData>): nat {
    if data == [] then 0 else TotalSize(data[..|data| - 1]) + |data[|data| - 1].data|
  }

  function MimesOf(data: seq<DropData>): (mimes: seq<Mime>)
    ensures |mimes| == |data| && forall k :: 0 <= k < |mimes| ==> mimes[k] == data[k].mimeType
  {
    seq(|data|, k requires 0 <= k < |data| => data[k].mimeType)
  }

  /** The first thing that speaks against retaining the data, in the order it is looked for. */
  function DropRefusal(d: Destination, allowed: DndOperation, data: seq<DropData>): Option<DndError> {
    var operation := AcceptedOperation(d);
    if operation == NoOperation || !allowed.Permits(operation) then Some(NotAccepted)
    else if !AllValid(MimesOf(data)) then Some(InvalidMime)
    else if TotalSize(data) > MAX_LOCAL_DROP_BYTES then Some(DropDataTooLarge)
    else if ValidateMimeList(MimesOf(data)).Some? then ValidateMimeList(MimesOf(data))
    else if !AcceptsOneOf(d.acceptedMimes, MimesOf(data)) then Some(NotAccepted)
    else None
  }

  function Dropped(d: Destination, location: DndLocation, allowed: DndOperation, data: seq<DropData>)
    : (Destination, Result<seq<DndFrame>, DndError>)
  {
    if !d.enabled then (d, Err(NotEnabled)) else
      var refusal := DropRefusal(d, allowed, data);
      if refusal.Some? then (ClearDrag(d), Err(refusal.value))
      else (d.(droppedData := Some(data)),
            Ok(EncodeFrames(DndHeader(Drop, Some(allowed), Some(location)), d.clientId, JoinMimes(MimesOf(data)))))
  }

  /* ---- Requests for the data ---- */

  /** A request that names no item says that the application is done. */
  predicate IsFinish(location: DndLocation) {
    location.cellX == 0 && location.cellY == 0 && location.pixelY == 0
  }

  function Writes(frames: seq<DndFrame>): (actions: seq<DndAction>)
    ensures |actions| == |frames| && forall k :: 0 <= k < |actions| ==> actions[k] == WriteFrame(frames[k])
  {
    seq(|frames|, k requires 0 <= k < |frames| => WriteFrame(frames[k]))
  }

  /** The encoded data in frames, then one empty message that ends it; Base64 comes from outside. */
  function DataActions(clientId: u32, location: DndLocation, data: seq<byte>,
                       base64: seq<byte> -> seq<byte>): seq<DndAction> {
    var header := DndHeader(RequestData, None, Some(location));
    var encoded := base64(data);
    Writes((if encoded == [] then [] else EncodeFrames(header, clientId, encoded)) + EncodeFrames(header, clientId, []))
  }

  function ServeDropRequest(d: Destination, command: DndCommand, base64: seq<byte> -> seq<byte>)
    : (Destination, seq<DndAction>)
  {
    var at := command.location;
    if IsFinish(at) then (ClearDrag(d), [DropFinished(FromClient(command.operation))])
    else if d.droppedData.None? then (d, [WriteError(d.clientId, at, NothingDropped)])
    else if at.cellY != 0 || at.pixelX != 0 || at.pixelY != 0 then
      (ClearDrag(d), [WriteError(d.clientId, at, RemoteItems), DropFinished(NoOperation)])
    else if !(1 <= at.cellX <= |d.droppedData.value|) then
      (ClearDrag(d), [WriteError(d.clientId, at, BadMimeIndex), DropFinished(NoOperation)])
    else (d, DataActions(d.clientId, at, d.droppedData.value[at.cellX - 1].data, base64))
  }

  function HandleCommand(d: Destination, command: DndCommand, base64: seq<byte> -> seq<byte>)
    : (Destination, seq<DndAction>)
  {
    match command.commandType
    case Query => (d, [WriteCapability(command.clientId)])
    case AcceptDrops => AcceptRegistration(d, command)
    case StopAcceptingDrops => (INITIAL, NOW_DISABLED)
    case DropMove => (AcceptDropStatus(d, command), [])
    case RequestData => ServeDropRequest(d, command, base64)
    case _ => (d, [])
  }

  /* ---- The object ---- */

  class DndDestination {
    var enabled: bool
    var clientId: u32
    var registeredMimes: seq<Mime>
    var registrationPayload: seq<byte>
    var registrationChunking: bool
    var registrationDiscarding: bool
    var acceptancePayload: seq<byte>
    var acceptanceChunking: bool
    var acceptanceDiscarding: bool
    var acceptanceOperation: DndOperation
    var acceptedMimes: Option<seq<Mime>>
    var hover: Option<HoverState>
    var droppedData: Option<seq<DropData>>

    function View(): Destination
      reads this
    {
      Destination(enabled, clientId, registeredMimes,
                  Inbox(registrationPayload, registrationChunking, registrationDiscarding),
                  Inbox(acceptancePayload, acceptanceChunking, acceptanceDiscarding),
                  acceptanceOperation, acceptedMimes, hover, droppedData)
    }

    constructor ()
      ensures View() == INITIAL
    {
      enabled, clientId, registeredMimes := false, 0, [];
      registrationPayload, registrationChunking, registrationDiscarding := [], false, false;
      acceptancePayload, acceptanceChunking, acceptanceDiscarding := [], false, false;
      acceptanceOperation, acceptedMimes, hover, droppedData := NoOperation, None, None, None;
    }

    method Handle(command: DndCommand, base64: seq<byte> -> seq<byte>) returns (actions: seq<DndAction>)
      modifies this
      ensures (View(), actions) == HandleCommand(old(View()), command, base64)
    {
      hide AcceptRegistration, AcceptDropStatus, ServeDropRequest;
      actions := [];
      match command.commandType {
        case Query => actions := [WriteCapability(command.clientId)];
        case AcceptDrops => actions := Register(command);
        case StopAcceptingDrops =>
          Reset();
          actions := [RegistrationChanged(false, [])];
        case DropMove => AcceptStatus(command);
        case RequestData => actions := Serve(command, base64);
        case _ =>
      }
    }

    method Register(command: DndCommand) returns (actions: seq<DndAction>)
      modifies `enabled, `clientId, `registeredMimes, `registrationPayload, `registrationChunking,
        `registrationDiscarding
      ensures (View(), actions) == AcceptRegistration(old(View()), command)
    {
      hide ParseMimePayload;
      if !registrationChunking && !registrationDiscarding {
        registrationPayload := [];
        clientId := command.clientId;
      }
      if registrationDiscarding {
        registrationChunking, registrationDiscarding := command.more, command.more;
        if command.more {
          return [];
        }
        enabled, registeredMimes := false, [];
        return [RegistrationChanged(false, [])];
      }
      if |registrationPayload| + |command.payload| > MAX_DND_MIME_LIST_BYTES {
        registrationPayload := [];
        registrationChunking, registrationDiscarding := command.more, command.more;
        enabled, registeredMimes := false, [];
        return if command.more then [] else [RegistrationChanged(false, [])];
      }
      registrationPayload := registrationPayload + command.payload;
      registrationChunking := command.more;
      if command.more {
        return [];
      }
      var mimeTypes := ParseMimePayload(registrationPayload);
      if mimeTypes.None? {
        enabled, registeredMimes := false, [];
        return [RegistrationChanged(false, [])];
      }
      enabled, registeredMimes := true, mimeTypes.value;
      return [RegistrationChanged(true, registeredMimes)];
    }

    method AcceptStatus(command: DndCommand)
      modifies `acceptancePayload, `acceptanceChunking, `acceptanceDiscarding, `acceptanceOperation, `acceptedMimes
      ensures View() == AcceptDropStatus(old(View()), command)
    {
      hide Settled, FromClient;
      if hover.None? {
        return;
      }
      if !acceptanceChunking && !acceptanceDiscarding {
        acceptancePayload := [];
        acceptanceOperation := FromClient(command.operation);
      }
      if acceptanceDiscarding {
        acceptanceChunking, acceptanceDiscarding := command.more, command.more;
        return;
      }
      if |acceptancePayload| + |command.payload| > MAX_DND_MIME_LIST_BYTES {
        acceptancePayload := [];
        acceptanceChunking, acceptanceDiscarding := command.more, command.more;
        acceptanceOperation, acceptedMimes := NoOperation, Some([]);
        return;
      }
      acceptancePayload := acceptancePayload + command.payload;
      acceptanceChunking := command.more;
      if !command.more {
        Settle();
      }
    }

    method Settle()
      modifies `acceptanceOperation, `acceptedMimes
      ensures View() == Settled(old(View()))
    {
      hide ParseMimePayload;
      if acceptancePayload == [] {
        acceptedMimes := None;
        return;
      }
      acceptedMimes := ParseMimePayload(acceptancePayload);
      if acceptedMimes.None? {
        acceptanceOperation, acceptedMimes := NoOperation, Some([]);
      }
    }

    /** A new offer takes back whatever was accepted for the old one. */
    method Move(location: DndLocation, allowed: DndOperation, offered: seq<Mime>)
      returns (r: Result<seq<DndFrame>, DndError>)
      modifies `acceptanceOperation, `acceptedMimes, `hover
      ensures (View(), r) == DragMoved(old(View()), location, allowed, offered)
    {
      hide ValidateMimeList, JoinMimes;
      if !enabled {
        return Err(NotEnabled);
      }
      var error := ValidateMimeList(offered);
      if error.Some? {
        return Err(error.value);
      }
      var offerChanged := hover.None? || hover.value.offeredMimes != offered || hover.value.allowedOperation != allowed;
      if offerChanged {
        acceptanceOperation, acceptedMimes := NoOperation, None;
      }
      var payload := if offerChanged then JoinMimes(offered) else [];
      hover := Some(HoverState(offered, allowed));
      return Ok(EncodeFrames(DndHeader(DropMove, Some(allowed), Some(location)), clientId, payload));
    }

    method Leave() returns (frames: seq<DndFrame>)
      modifies this
      ensures (View(), frames) == DragLeft(old(View()))
    {
      if droppedData.Some? {
        return [];
      }
      if !enabled || hover.None? {
        return [];
      }
      Clear();
      return EncodeFrames(DndHeader(DropMove, Some(NoOperation), Some(OUTSIDE)), clientId, []);
    }

    /** Add up the retained bytes, checking each type on the way. */
    method MeasureDrop(data: seq<DropData>) returns (r: Result<nat, DndError>)
      ensures r == if AllValid(MimesOf(data)) then Ok(TotalSize(data)) else Err(InvalidMime)
    {
      hide ValidMime;
      var total := 0;
      var k := 0;
      while k < |data|
        invariant 0 <= k <= |data| && total == TotalSize(data[..k])
        invariant forall j :: 0 <= j < k ==> ValidMime(data[j].mimeType)
      {
        if !ValidMime(data[k].mimeType) {
          assert !ValidMime(MimesOf(data)[k]);
          return Err(InvalidMime);
        }
        assert data[..k + 1][..k] == data[..k];
        total := total + |data[k].data|;
        k := k + 1;
      }
      assert data[..k] == data;
      return Ok(total);
    }

    method ReleaseDrop(location: DndLocation, allowed: DndOperation, data: seq<DropData>)
      returns (r: Result<seq<DndFrame>, DndError>)
      modifies this
      ensures (View(), r) == Dropped(old(View()), location, allowed, data)
    {
      hide ValidateMimeList, JoinMimes, TotalSize, AcceptsOneOf, AllValid;
      if !enabled {
        return Err(NotEnabled);
      }
      var operation := AcceptedOperation(View());
      if operation == NoOperation || !allowed.Permits(operation) {
        Clear();
        return Err(NotAccepted);
      }
      var total := MeasureDrop(data);
      if total.Err? {
        Clear();
        return Err(total.error);
      }
      if total.value > MAX_LOCAL_DROP_BYTES {
        Clear();
        return Err(DropDataTooLarge);
      }
      var offered := MimesOf(data);
      var error := ValidateMimeList(offered);
      if error.Some? {
        Clear();
        return Err(error.value);
      }
      if !AcceptsOneOf(acceptedMimes, offered) {
        Clear();
        return Err(NotAccepted);
      }
      droppedData := Some(data);
      return Ok(EncodeFrames(DndHeader(Drop, Some(allowed), Some(location)), clientId, JoinMimes(offered)));
    }

    method Serve(command: DndCommand, base64: seq<byte> -> seq<byte>) returns (actions: seq<DndAction>)
      modifies this
      ensures (View(), actions) == ServeDropRequest(old(View()), command, base64)
    {
      hide DataActions;
      var at := command.location;
      if at.cellX == 0 && at.cellY == 0 && at.pixelY == 0 {
        Clear();
        return [DropFinished(FromClient(command.operation))];
      }
      if droppedData.None? {
        return [WriteError(clientId, at, NothingDropped)];
      }
      if at.cellY != 0 || at.pixelX != 0 || at.pixelY != 0 {
        Clear();
        return [WriteError(clientId, at, RemoteItems), DropFinished(NoOperation)];
      }
      var index := at.cellX - 1;
      if index < 0 || index >= |droppedData.value| {
        Clear();
        return [WriteError(clientId, at, BadMimeIndex), DropFinished(NoOperation)];
      }
      return DataActions(clientId, at, droppedData.value[index].data, base64);
    }

    method Clear()
      modifies `acceptancePayload, `acceptanceChunking, `acceptanceDiscarding, `acceptanceOperation, `acceptedMimes,
        `hover, `droppedData
      ensures View() == ClearDrag(old(View()))
    {
      acceptancePayload, acceptanceChunking, acceptanceDiscarding := [], false, false;
      acceptanceOperation, acceptedMimes, hover, droppedData := NoOperation, None, None, None;
    }

    method Reset()
      modifies this
      ensures View() == INITIAL
    {
      enabled, clientId, registeredMimes := false, 0, [];
      registrationPayload, registrationChunking, registrationDiscarding := [], false, false;
      Clear();
    }
  }
}
