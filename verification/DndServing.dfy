/** What an application is told of a drop, and what its requests are answered with, over whole runs. */
module DndServing {
  import opened Bytes
  import opened DndMimes
  import opened DndFrames
  import opened DndDestinations
  import opened DndRuns
  import opened DndConsent

  /* ---- Operations ---- */

  /** The offer lets the other side copy, move, or do either. */
  predicate Allows(offer: DndOperation, selected: DndOperation) {
    (selected == Copy && offer in {Copy, Either}) || (selected == Move && offer in {DndOperation.Move, Either})
  }

  /** The numbers that a client uses for the operations: 1 copies, 2 moves, and any other selects nothing. */
  predicate Selects(value: u32, operation: DndOperation) {
    && (value == 1 ==> operation == Copy) && (value == 2 ==> operation == DndOperation.Move)
    && (value != 1 && value != 2 ==> operation == NoOperation)
  }

  predicate SomeAccepted(accepted: Option<seq<Mime>>, offered: seq<Mime>) {
    if accepted.None? then |offered| > 0
    else exists j, k :: 0 <= j < |accepted.value| && 0 <= k < |offered| && accepted.value[j] == offered[k]
  }

  lemma OperationsAre(offer: DndOperation, selected: DndOperation, value: u32)
    ensures offer.Permits(selected) <==> Allows(offer, selected)
    ensures Selects(value, FromClient(value))
  {}

  lemma AcceptsIs(accepted: Option<seq<Mime>>, offered: seq<Mime>)
    ensures AcceptsOneOf(accepted, offered) <==> SomeAccepted(accepted, offered)
  {
    if accepted.Some? && AcceptsOneOf(accepted, offered) {
      var mime :| mime in accepted.value && mime in offered;
      var j :| 0 <= j < |accepted.value| && accepted.value[j] == mime;
      var k :| 0 <= k < |offered| && offered[k] == mime;
    }
    if accepted.Some? && SomeAccepted(accepted, offered) {
      var j, k :| 0 <= j < |accepted.value| && 0 <= k < |offered| && accepted.value[j] == offered[k];
      assert accepted.value[j] in accepted.value && accepted.value[j] in offered;
    }
  }

  /** The application asks for an operation that the offer allows, and takes one of the offered types. */
  predicate Consents(d: Destination, operation: DndOperation) {
    && d.hover.Some? && operation == d.acceptanceOperation && Allows(d.hover.value.allowedOperation, operation)
    && SomeAccepted(d.acceptedMimes, d.hover.value.offeredMimes)
  }

  lemma AcceptedIff(d: Destination, operation: DndOperation)
    requires operation != NoOperation
    ensures AcceptedOperation(d) == operation <==> Consents(d, operation)
  {
    hide SomeAccepted, AcceptsOneOf;
    if d.hover.Some? {
      OperationsAre(d.hover.value.allowedOperation, d.acceptanceOperation, 0);
      AcceptsIs(d.acceptedMimes, d.hover.value.offeredMimes);
    }
  }

  /** Whatever operation is accepted, the number that the application sent for it was 1 or 2, and says so. */
  lemma AcceptedNumber(events: seq<Event>, n: nat) returns (granted: nat)
    requires n <= |events| && AcceptedOperation(StateAt(events, n)) != NoOperation
    ensures BegunAt(events, granted, n) && events[granted].Command? && events[granted].command.operation in {1, 2}
    ensures Selects(events[granted].command.operation, AcceptedOperation(StateAt(events, n)))
    ensures Consents(StateAt(events, n), AcceptedOperation(StateAt(events, n)))
  {
    hide StateAt, BegunAt, Consents, InForce, AcceptsOneOf, AcceptedOperation;
    granted := AcceptedWasGranted(events, n);
    Earlier(events, granted, n);
    OperationsAre(NoOperation, NoOperation, events[granted].command.operation);
    AcceptedIff(StateAt(events, n), AcceptedOperation(StateAt(events, n)));
  }

  /* ---- When a drop is retained ---- */

  predicate Retainable(d: Destination, allowed: DndOperation, data: seq<DropData>) {
    && d.enabled && Consents(d, d.acceptanceOperation) && Allows(allowed, d.acceptanceOperation)
    && BytesIn(data) <= 16 * 1024 * 1024 && ValidMimeList(MimesOf(data))
    && SomeAccepted(d.acceptedMimes, MimesOf(data))
  }

  function BytesIn(data: seq<DropData>): nat {
    if data == [] then 0 else |data[0].data| + BytesIn(data[1..])
  }

  lemma {:induction false} BytesInSnoc(data: seq<DropData>, last: DropData)
    ensures BytesIn(data + [last]) == BytesIn(data) + |last.data|
    decreases |data|
  {
    if data == [] {
      assert [last][1..] == [];
    } else {
      BytesInSnoc(data[1..], last);
      assert (data + [last])[1..] == data[1..] + [last];
    }
  }

  lemma {:induction false} SizeIsBytes(data: seq<DropData>)
    ensures TotalSize(data) == BytesIn(data)
    decreases |data|
  {
    if data != [] {
      var initial, last := data[..|data| - 1], data[|data| - 1];
      SizeIsBytes(initial);
      BytesInSnoc(initial, last);
      assert initial + [last] == data;
    }
  }

  lemma RefusedIff(d: Destination, allowed: DndOperation, data: seq<DropData>)
    requires d.enabled
    ensures DropRefusal(d, allowed, data).None? <==> Retainable(d, allowed, data)
  {
    hide ValidMimeList, ValidateMimeList, AllValid, AcceptsOneOf, TotalSize, SomeAccepted, AcceptedOperation, Consents;
    ValidationIsExact(MimesOf(data));
    ValidIsAll(MimesOf(data));
    SizeIsBytes(data);
    OperationsAre(allowed, d.acceptanceOperation, 0);
    AcceptsIs(d.acceptedMimes, MimesOf(data));
    OnlyItsOwn(d);
    if d.acceptanceOperation != NoOperation {
      AcceptedIff(d, d.acceptanceOperation);
    }
  }

  lemma ValidIsAll(mimes: seq<Mime>)
    ensures ValidMimeList(mimes) ==> AllValid(mimes)
  {}

  lemma OnlyItsOwn(d: Destination)
    ensures AcceptedOperation(d) in {NoOperation, d.acceptanceOperation}
    ensures Consents(d, d.acceptanceOperation) ==> d.acceptanceOperation != NoOperation
    ensures d.acceptanceOperation == NoOperation ==> AcceptedOperation(d) == NoOperation
  {
    hide AcceptsOneOf, SomeAccepted;
  }

  /** These are the types of the items, in their order. */
  predicate TypesOf(mimes: seq<Mime>, data: seq<DropData>) {
    |mimes| == |data| && forall k :: 0 <= k < |data| ==> mimes[k] == data[k].mimeType
  }

  /** The frames of one message for this client. */
  predicate MessageFor(frames: seq<DndFrame>, header: DndHeader, clientId: u32, payload: seq<byte>) {
    && OneMessage(frames, header, payload)
    && forall k :: 0 <= k < |frames| ==> frames[k].clientId == if clientId == 0 then None else Some(clientId)
  }

  lemma EncodedIsMessage(header: DndHeader, clientId: u32, payload: seq<byte>)
    ensures MessageFor(EncodeFrames(header, clientId, payload), header, clientId, payload)
  {
    hide EncodeFrames, OneMessage;
    FramesAreOneMessage(header, clientId, payload);
  }

  /** The drop was told to the client as one message, and what it reads in it are the types of the items. */
  ghost predicate Announces(r: Result<seq<DndFrame>, DndError>, clientId: u32, location: DndLocation,
                            allowed: DndOperation, data: seq<DropData>) {
    r.Ok? && exists payload: seq<byte>, mimes: seq<Mime> ::
      && MessageFor(r.value, DndHeader(Drop, Some(allowed), Some(location)), clientId, payload)
      && ParseMimePayload(payload) == Some(mimes) && TypesOf(mimes, data)
  }

  /**
   * Data is retained exactly when drops are enabled, the application consents to an operation that the
   * drop allows, its types are a valid list of which one is accepted, and it has at most 16 MiB. It is
   * then all of the data, and is announced by the list of its types in order; else nothing is retained.
   */
  lemma RetainedIff(d: Destination, location: DndLocation, allowed: DndOperation, data: seq<DropData>)
    ensures var (after, r) := Dropped(d, location, allowed, data);
            if Retainable(d, allowed, data) then
              after == d.(droppedData := Some(data)) && Announces(r, d.clientId, location, allowed, data)
            else
              r.Err? && if d.enabled then after.droppedData.None? && after.hover.None? else after == d
  {
    hide DropRefusal, JoinMimes, EncodeFrames, ParseMimePayload, ValidMimeList, SomeAccepted, BytesIn, Consents;
    hide MessageFor;
    if d.enabled {
      RefusedIff(d, allowed, data);
    }
    if Retainable(d, allowed, data) {
      var payload, header := JoinMimes(MimesOf(data)), DndHeader(Drop, Some(allowed), Some(location));
      EncodedIsMessage(header, d.clientId, payload);
      ParseUndoesJoin(MimesOf(data));
      assert TypesOf(MimesOf(data), data);
    }
  }

  /* ---- What a request is answered with ---- */

  /** Only frames are written, these ones in this order. */
  predicate Sends(actions: seq<DndAction>, frames: seq<DndFrame>) {
    |actions| == |frames| && forall k :: 0 <= k < |actions| ==> actions[k] == WriteFrame(frames[k])
  }

  /** The item's encoded bytes as one message, unless there are none, and then one empty message that ends them. */
  predicate IsReply(body: seq<DndFrame>, end: seq<DndFrame>, clientId: u32, location: DndLocation,
                    encoded: seq<byte>) {
    var header := DndHeader(RequestData, None, Some(location));
    && (if encoded == [] then body == [] else MessageFor(body, header, clientId, encoded))
    && MessageFor(end, header, clientId, [])
  }

  /** The request names the item at this position, counted from one, and asks for nothing else. */
  predicate AsksFor(command: DndCommand, item: nat) {
    && command.commandType == RequestData && command.location.cellX == item + 1
    && command.location.cellY == 0 && command.location.pixelX == 0 && command.location.pixelY == 0
  }

  lemma DataIsReply(clientId: u32, location: DndLocation, data: seq<byte>, base64: seq<byte> -> seq<byte>)
    returns (body: seq<DndFrame>, end: seq<DndFrame>)
    ensures Sends(DataActions(clientId, location, data, base64), body + end)
    ensures IsReply(body, end, clientId, location, base64(data))
  {
    hide EncodeFrames, MessageFor;
    var header := DndHeader(RequestData, None, Some(location));
    body := if base64(data) == [] then [] else EncodeFrames(header, clientId, base64(data));
    end := EncodeFrames(header, clientId, []);
    EncodedIsMessage(header, clientId, base64(data));
    EncodedIsMessage(header, clientId, []);
  }

  lemma ItemIsServed(d: Destination, command: DndCommand, base64: seq<byte> -> seq<byte>, item: nat)
    requires d.droppedData.Some? && item < |d.droppedData.value| && AsksFor(command, item)
    ensures HandleCommand(d, command, base64)
         == (d, DataActions(d.clientId, command.location, d.droppedData.value[item].data, base64))
  {
    hide DataActions;
  }

  /**
   * After a release whose data is retained, a request for an item is answered with the bytes that this
   * release gave for that item, encoded, and one empty message that ends them; the destination stays as
   * it is, so every item can be asked for again. The type that the drop had announced at the item's
   * position is that item's own.
   */
  lemma RequestGetsItsItem(events: seq<Event>, n: nat, item: nat)
    returns (released: nat, body: seq<DndFrame>, end: seq<DndFrame>)
    requires n < |events| && events[n].Command? && AsksFor(events[n].command, item)
    requires StateAt(events, n).droppedData.Some? && item < |StateAt(events, n).droppedData.value|
    ensures released < n && events[released].Released? && item < |events[released].data|
    ensures KeptThroughout(events, released + 1, n, Some(events[released].data))
    ensures var d, e := StateAt(events, released), events[released];
            && Retainable(d, e.allowed, e.data)
            && Announces(Dropped(d, e.location, e.allowed, e.data).1, d.clientId, e.location, e.allowed, e.data)
    ensures var d, command, base64 := StateAt(events, n), events[n].command, events[n].base64;
            && StateAt(events, n + 1) == d
            && Sends(HandleCommand(d, command, base64).1, body + end)
            && IsReply(body, end, d.clientId, command.location, base64(events[released].data[item].data))
  {
    hide Dropped, DataActions, HandleCommand, Retainable, Announces, IsReply, Sends, DropRefusal, StateAt;
    hide AsksFor;
    released := RetainedWasReleased(events, n);
    var before, e := StateAt(events, released), events[released];
    RefusedIff(before, e.allowed, e.data);
    RetainedIff(before, e.location, e.allowed, e.data);
    var d, command, base64 := StateAt(events, n), events[n].command, events[n].base64;
    ItemIsServed(d, command, base64, item);
    body, end := DataIsReply(d.clientId, command.location, e.data[item].data, base64);
    OneStep(events, n);
  }

  lemma OneStep(events: seq<Event>, n: nat)
    requires n < |events| && events[n].Command?
    ensures StateAt(events, n + 1) == HandleCommand(StateAt(events, n), events[n].command, events[n].base64).0
  {
    hide HandleCommand;
  }

  /* ---- How a drop ends ---- */

  /** The request names no item, so the application is done with the drop. */
  predicate SaysDone(command: DndCommand) {
    && command.commandType == RequestData
    && command.location.cellX == 0 && command.location.cellY == 0 && command.location.pixelY == 0
  }

  /** What a request that gets no data is answered with. */
  predicate EndsWith(actions: seq<DndAction>, d: Destination, command: DndCommand) {
    if SaysDone(command) then
      |actions| == 1 && actions[0].DropFinished? && Selects(command.operation, actions[0].operation)
    else if d.droppedData.None? then
      actions == [WriteError(d.clientId, command.location, NothingDropped)]
    else
      && |actions| == 2 && actions[1] == DropFinished(NoOperation)
      && actions[0] == WriteError(d.clientId, command.location,
                                  if command.location.cellY == 0 && command.location.pixelX == 0
                                     && command.location.pixelY == 0 then BadMimeIndex else RemoteItems)
  }

  /**
   * A request that names no retained item gets no data: it finishes the drop with the operation that its
   * number selects if it names nothing, and with none if it names something that is not there; only with
   * nothing retained does a request for something leave the destination as it is.
   */
  lemma OtherRequestsEnd(d: Destination, command: DndCommand, base64: seq<byte> -> seq<byte>)
    requires command.commandType == RequestData
    requires d.droppedData.Some? ==> forall item: nat :: item < |d.droppedData.value| ==> !AsksFor(command, item)
    ensures var (after, actions) := HandleCommand(d, command, base64);
            && EndsWith(actions, d, command)
            && if d.droppedData.None? && !SaysDone(command) then after == d
               else after.droppedData.None? && after.hover.None? && after.acceptanceOperation == NoOperation
                    && after.registeredMimes == d.registeredMimes && after.enabled == d.enabled
  {
    hide DataActions;
    if d.droppedData.Some? && 1 <= command.location.cellX <= |d.droppedData.value| {
      var item: nat := command.location.cellX - 1;
      assert !AsksFor(command, item);
    }
  }

  /* ---- What a drag report says ---- */

  /** One message of where it is and what the offer allows; a new offer brings its types, and takes consent back. */
  ghost predicate Reports(d: Destination, after: Destination, frames: seq<DndFrame>, location: DndLocation,
                          allowed: DndOperation, offered: seq<Mime>) {
    exists payload: seq<byte> ::
      && MessageFor(frames, DndHeader(DropMove, Some(allowed), Some(location)), d.clientId, payload)
      && if d.hover == Some(HoverState(offered, allowed)) then payload == [] && after == d
         else
           && ParseMimePayload(payload) == Some(offered)
           && after == d.(acceptanceOperation := NoOperation, acceptedMimes := None,
                          hover := Some(HoverState(offered, allowed)))
  }

  /** A drag is reported exactly when drops are enabled and its types are a valid list; else nothing changes. */
  lemma MoveIff(d: Destination, location: DndLocation, allowed: DndOperation, offered: seq<Mime>)
    ensures var (after, r) := DragMoved(d, location, allowed, offered);
            if d.enabled && ValidMimeList(offered) then
              r.Ok? && Reports(d, after, r.value, location, allowed, offered)
            else r.Err? && after == d
  {
    hide ValidateMimeList, JoinMimes, ParseMimePayload, ValidMimeList, EncodeFrames, MessageFor;
    ValidationIsExact(offered);
    ParseUndoesJoin(offered);
    var payload := if OfferChanged(d, allowed, offered) then JoinMimes(offered) else [];
    EncodedIsMessage(DndHeader(DropMove, Some(allowed), Some(location)), d.clientId, payload);
  }

  /** A leave ends a drag that has not been dropped, and says so from outside the window; else it does nothing. */
  lemma LeaveIsReported(d: Destination)
    ensures var (after, frames) := DragLeft(d);
            if d.enabled && d.hover.Some? && d.droppedData.None? then
              && after.hover.None? && after.acceptanceOperation == NoOperation && after.acceptedMimes.None?
              && MessageFor(frames, DndHeader(DropMove, Some(NoOperation), Some(DndLocation(-1, -1, 0, 0))),
                            d.clientId, [])
            else after == d && frames == []
  {
    hide EncodeFrames, MessageFor;
    EncodedIsMessage(DndHeader(DropMove, Some(NoOperation), Some(DndLocation(-1, -1, 0, 0))), d.clientId, []);
  }

  /** A client that stops accepting drops leaves the destination as it was before any event. */
  lemma StopForgets(events: seq<Event>, n: nat)
    requires n < |events| && events[n].Command? && events[n].command.commandType == StopAcceptingDrops
    ensures StateAt(events, n + 1) == StateAt(events, 0)
    ensures HandleCommand(StateAt(events, n), events[n].command, events[n].base64).1 == [RegistrationChanged(false, [])]
  {}

  /** A query is answered to the client that asks and changes nothing; an acceptance is never answered. */
  lemma QuietCommands(d: Destination, command: DndCommand, base64: seq<byte> -> seq<byte>)
    ensures var (after, actions) := HandleCommand(d, command, base64);
            && (command.commandType == Query ==> after == d && actions == [WriteCapability(command.clientId)])
            && (command.commandType == DropMove ==>
                  && actions == [] && after.droppedData == d.droppedData && after.hover == d.hover
                  && after.enabled == d.enabled && after.registeredMimes == d.registeredMimes)
            && (command.commandType !in {AcceptDrops, StopAcceptingDrops, DropMove, RequestData, Query} ==>
                  after == d && actions == [])
  {
    hide ParseMimePayload, Receive, AcceptRegistration, ServeDropRequest;
  }
}
