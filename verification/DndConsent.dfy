/** Over which offer, by which acceptance, and with which list of types data may be dropped. */
module DndConsent {
  import opened Bytes
  import opened DndMimes
  import opened DndFrames
  import opened DndDestinations
  import opened DndRuns

  /** The first or only chunk of an acceptance, while something hovers. */
  predicate FreshAcceptance(d: Destination, e: Event) {
    e.Command? && e.command.commandType == DropMove && d.hover.Some? && d.acceptance.Idle()
  }

  /** A native drag event whose offer differs from the one before it. */
  predicate ChangesOffer(d: Destination, e: Event) {
    e.Moved? && d.enabled && ValidMimeList(e.offered) && OfferChanged(d, e.allowed, e.offered)
  }

  /* ---- One step ---- */

  predicate IsChunk(e: Event) {
    e.Command? && e.command.commandType == DropMove
  }

  /** An acceptance has begun and its chunks are being kept. */
  predicate Collecting(inbox: Inbox) {
    inbox.chunking && !inbox.discarding
  }

  function PayloadOf(e: Event): seq<byte> {
    if IsChunk(e) then e.command.payload else []
  }

  /** The list that a whole acceptance of this payload asks for; empty where it is no list or too long. */
  function ListIn(payload: seq<byte>): seq<Mime> {
    var parsed := ParseMimePayload(payload);
    if |payload| <= MAX_DND_MIME_LIST_BYTES && parsed.Some? then parsed.value else []
  }

  /** What an application's acceptance is about, and how far it has come. */
  predicate SameDrag(d: Destination, d': Destination) {
    && d'.acceptance == d.acceptance && d'.acceptanceOperation == d.acceptanceOperation
    && d'.acceptedMimes == d.acceptedMimes && d'.hover == d.hover
  }

  predicate NoDrag(d: Destination) {
    d.acceptance == EMPTY_INBOX && d.acceptanceOperation == NoOperation && d.acceptedMimes == None && d.hover == None
  }

  /** A changed offer takes back the operation and the list; chunks collected so far stay. */
  predicate NewOffer(d: Destination, d': Destination) {
    && d'.acceptance == d.acceptance && d'.acceptanceOperation == NoOperation && d'.acceptedMimes == None
    && d'.hover.Some? && d'.hover != d.hover
  }

  lemma ChunkStep(d: Destination, e: Event)
    requires IsChunk(e)
    ensures After(d, e) == AcceptDropStatus(d, e.command)
  {
    hide AcceptDropStatus;
  }

  lemma MoveStep(d: Destination, e: Event)
    requires e.Moved?
    ensures if ChangesOffer(d, e) then NewOffer(d, After(d, e)) else SameDrag(d, After(d, e))
  {
    hide ValidMimeList, ValidateMimeList, JoinMimes;
    ValidationIsExact(e.offered);
  }

  lemma CommandStep(d: Destination, e: Event)
    requires e.Command? && !IsChunk(e)
    ensures SameDrag(d, After(d, e)) || NoDrag(After(d, e))
  {
    hide AcceptRegistration, ServeDropRequest;
    RegistrationStep(d, e.command);
    ServeStep(d, e.command, e.base64);
  }

  lemma RegistrationStep(d: Destination, command: DndCommand)
    ensures SameDrag(d, AcceptRegistration(d, command).0)
  {
    hide ParseMimePayload, Receive;
  }

  lemma ServeStep(d: Destination, command: DndCommand, base64: seq<byte> -> seq<byte>)
    ensures SameDrag(d, ServeDropRequest(d, command, base64).0) || NoDrag(ServeDropRequest(d, command, base64).0)
  {
    hide DataActions;
  }

  lemma DragStep(d: Destination, e: Event)
    requires e.Left? || e.Released?
    ensures SameDrag(d, After(d, e)) || NoDrag(After(d, e))
  {
    hide DropRefusal, JoinMimes;
  }

  /** Everything but a chunk of an acceptance leaves the drag alone, ends it, or makes a new offer. */
  lemma OtherStep(d: Destination, e: Event)
    requires !IsChunk(e)
    ensures if ChangesOffer(d, e) then NewOffer(d, After(d, e)) else SameDrag(d, After(d, e)) || NoDrag(After(d, e))
  {
    hide After, SameDrag, NoDrag, NewOffer, ChangesOffer;
    match e {
      case Command(_, _) =>
        CommandStep(d, e);
        OnlyMovesChange(d, e);
      case Moved(_, _, _) => MoveStep(d, e);
      case Left =>
        DragStep(d, e);
        OnlyMovesChange(d, e);
      case Released(_, _, _) =>
        DragStep(d, e);
        OnlyMovesChange(d, e);
    }
  }

  lemma OnlyMovesChange(d: Destination, e: Event)
    ensures ChangesOffer(d, e) ==> e.Moved?
  {}

  /** An operation that is accepted was accepted before, or is accepted just now; either way for the same offer. */
  lemma OperationOrigin(d: Destination, e: Event)
    requires After(d, e).acceptanceOperation != NoOperation
    ensures After(d, e).hover == d.hover
    ensures After(d, e).acceptanceOperation == d.acceptanceOperation
         || (FreshAcceptance(d, e) && After(d, e).acceptanceOperation == FromClient(e.command.operation))
  {
    hide After, ChangesOffer, ParseMimePayload;
    if IsChunk(e) {
      ChunkStep(d, e);
    } else {
      OtherStep(d, e);
    }
  }

  lemma OfferResets(d: Destination, e: Event)
    requires ChangesOffer(d, e)
    ensures After(d, e).acceptanceOperation == NoOperation && After(d, e).acceptedMimes == None
    ensures After(d, e).acceptance == d.acceptance && After(d, e).hover.Some?
  {
    hide After, ChangesOffer;
    OnlyMovesChange(d, e);
    OtherStep(d, e);
  }

  /** Offers change only by native drag events. */
  lemma OfferStep(d: Destination, e: Event)
    requires d.hover.Some? && After(d, e).hover.Some?
    ensures ChangesOffer(d, e) <==> After(d, e).hover != d.hover
  {
    hide After, ChangesOffer, ParseMimePayload, Receive;
    if IsChunk(e) {
      ChunkStep(d, e);
    } else {
      OtherStep(d, e);
    }
    OnlyMovesChange(d, e);
  }

  /** What is being collected was begun just now, or is one chunk longer. */
  lemma CollectingStep(d: Destination, e: Event)
    requires Collecting(After(d, e).acceptance) && (d.hover.None? ==> d.acceptance == EMPTY_INBOX)
    ensures FreshAcceptance(d, e) || Collecting(d.acceptance)
    ensures After(d, e).acceptance.payload
       == (if FreshAcceptance(d, e) then [] else d.acceptance.payload) + PayloadOf(e)
  {
    hide After, ChangesOffer, ParseMimePayload;
    if IsChunk(e) {
      ChunkStep(d, e);
    } else {
      OtherStep(d, e);
    }
    assert d.acceptance.payload + [] == d.acceptance.payload;
  }

  /** A list of accepted types stays, or is what the chunks collected so far and this one ask for. */
  lemma ListStep(d: Destination, e: Event)
    requires After(d, e).acceptedMimes.Some?
    ensures After(d, e).hover == d.hover
    ensures After(d, e).acceptedMimes == d.acceptedMimes
         || (IsChunk(e) && d.hover.Some? && (FreshAcceptance(d, e) || Collecting(d.acceptance))
             && After(d, e).acceptedMimes
                == Some(ListIn((if FreshAcceptance(d, e) then [] else d.acceptance.payload) + e.command.payload)))
  {
    hide After, ChangesOffer, ParseMimePayload;
    if IsChunk(e) {
      ChunkStep(d, e);
    } else {
      OtherStep(d, e);
    }
    NoList();
  }

  lemma NoList()
    ensures ParseMimePayload([]) == Some([])
  {
    NoMimes();
    ParseUndoesJoin([]);
    hide ParseMimePayload, ValidMimeList;
    assert JoinMimes([]) == [];
  }

  /* ---- Where the accepted operation comes from ---- */

  /** Between two points of a run the offer and the accepted operation have stayed. */
  predicate HeldThroughout(events: seq<Event>, first: nat, last: nat, hover: Option<HoverState>,
                           operation: DndOperation)
    requires last <= |events|
  {
    forall j: nat :: first <= j <= last ==>
      StateAt(events, j).hover == hover && StateAt(events, j).acceptanceOperation == operation
  }

  /** The payloads of the acceptance chunks among some events, joined. */
  function ChunksBetween(events: seq<Event>, first: nat, last: nat): seq<byte>
    requires first <= last <= |events|
    decreases last
  {
    if first == last then [] else ChunksBetween(events, first, last - 1) + PayloadOf(events[last - 1])
  }

  /** An acceptance began with event `began`, and none has begun since. */
  predicate BegunAt(events: seq<Event>, began: nat, n: nat)
    requires n <= |events|
  {
    && began < n && FreshAcceptance(StateAt(events, began), events[began])
    && forall j :: began < j < n ==> !FreshAcceptance(StateAt(events, j), events[j])
  }

  /** The list of accepted types is what a whole acceptance of this payload says. */
  predicate Says(payload: seq<byte>, accepted: Option<seq<Mime>>) {
    && |payload| <= MAX_DND_MIME_LIST_BYTES
    && if payload == [] then accepted == None else accepted.Some? && accepted == ParseMimePayload(payload)
  }

  /** The acceptance is over and its list is in force, or its chunks are collected and the list is an older one. */
  predicate InForce(d: Destination, payload: seq<byte>, older: Option<seq<Mime>>) {
    if d.acceptance.Idle() then Says(payload, d.acceptedMimes)
    else Collecting(d.acceptance) && d.acceptance.payload == payload && d.acceptedMimes == older
  }

  lemma FreshInForce(d: Destination, e: Event)
    requires FreshAcceptance(d, e) && After(d, e).acceptanceOperation != NoOperation
    ensures InForce(After(d, e), PayloadOf(e), d.acceptedMimes)
  {
    hide After, ParseMimePayload;
    ChunkStep(d, e);
    assert [] + PayloadOf(e) == PayloadOf(e);
  }

  lemma StaysInForce(d: Destination, e: Event, payload: seq<byte>, older: Option<seq<Mime>>)
    requires d.acceptanceOperation != NoOperation && d.hover.Some? && InForce(d, payload, older)
    requires !FreshAcceptance(d, e) && After(d, e).acceptanceOperation != NoOperation
    ensures InForce(After(d, e), payload + PayloadOf(e), older)
  {
    hide After, ChangesOffer, ParseMimePayload;
    if IsChunk(e) {
      ChunkStep(d, e);
    } else {
      OtherStep(d, e);
    }
    assert payload + [] == payload;
  }

  /** The accepted operation belongs to the latest acceptance, which began over the offer that still hovers. */
  lemma {:induction false} OperationWasGranted(events: seq<Event>, n: nat) returns (granted: nat)
    requires n <= |events| && StateAt(events, n).acceptanceOperation != NoOperation
    ensures BegunAt(events, granted, n)
    ensures FromClient(events[granted].command.operation) == StateAt(events, n).acceptanceOperation
    ensures StateAt(events, granted).hover == StateAt(events, n).hover
    ensures HeldThroughout(events, granted + 1, n, StateAt(events, n).hover, StateAt(events, n).acceptanceOperation)
    ensures InForce(StateAt(events, n), ChunksBetween(events, granted, n), StateAt(events, granted).acceptedMimes)
    decreases n
  {
    hide After, FreshAcceptance, InForce, PayloadOf;
    var before, e := StateAt(events, n - 1), events[n - 1];
    OperationOrigin(before, e);
    if FreshAcceptance(before, e) {
      granted := n - 1;
      FreshInForce(before, e);
      FreshGrants(before, e);
      assert [] + PayloadOf(e) == PayloadOf(e);
    } else {
      granted := OperationWasGranted(events, n - 1);
      FreshHovers(StateAt(events, granted), events[granted]);
      StaysInForce(before, e, ChunksBetween(events, granted, n - 1), StateAt(events, granted).acceptedMimes);
    }
  }

  lemma FreshGrants(d: Destination, e: Event)
    requires FreshAcceptance(d, e) && After(d, e).acceptanceOperation != NoOperation
    ensures After(d, e).acceptanceOperation == FromClient(e.command.operation)
  {
    hide ParseMimePayload;
  }

  lemma FreshHovers(d: Destination, e: Event)
    requires FreshAcceptance(d, e)
    ensures d.hover.Some? && e.Command?
  {}

  /**
   * Whatever operation is accepted, the application asked for it in its latest acceptance, which began
   * over the very offer that still hovers; the offer permits it, and one of the offered types is
   * accepted. The types are those of that acceptance once it is whole; until then they are older ones.
   */
  lemma AcceptedWasGranted(events: seq<Event>, n: nat) returns (granted: nat)
    requires n <= |events| && AcceptedOperation(StateAt(events, n)) != NoOperation
    ensures BegunAt(events, granted, n)
    ensures var d := StateAt(events, n);
            && FromClient(events[granted].command.operation) == AcceptedOperation(d)
            && d.hover.Some? && d.hover == StateAt(events, granted).hover
            && d.hover.value.allowedOperation.Permits(AcceptedOperation(d))
            && AcceptsOneOf(d.acceptedMimes, d.hover.value.offeredMimes)
            && HeldThroughout(events, granted + 1, n, d.hover, AcceptedOperation(d))
    ensures InForce(StateAt(events, n), ChunksBetween(events, granted, n), StateAt(events, granted).acceptedMimes)
  {
    hide After, AcceptsOneOf, BegunAt, InForce;
    granted := OperationWasGranted(events, n);
  }

  lemma StaysUnlisted(d: Destination, e: Event)
    requires !Collecting(d.acceptance) && d.acceptedMimes == None && !FreshAcceptance(d, e)
    ensures !Collecting(After(d, e).acceptance) && After(d, e).acceptedMimes == None
  {
    hide After, ChangesOffer, ParseMimePayload;
    if IsChunk(e) {
      ChunkStep(d, e);
    } else {
      OtherStep(d, e);
    }
  }

  /**
   * After a change of the offer no operation is accepted until a fresh acceptance, even mid-chunk; and
   * no list of types is, if no acceptance was being collected when the offer changed.
   */
  lemma {:induction false} NoConsentCarriesOver(events: seq<Event>, changed: nat, n: nat)
    requires changed < n <= |events| && ChangesOffer(StateAt(events, changed), events[changed])
    requires forall j :: changed < j < n ==> !FreshAcceptance(StateAt(events, j), events[j])
    ensures StateAt(events, n).acceptanceOperation == NoOperation
    ensures AcceptedOperation(StateAt(events, n)) == NoOperation
    ensures !Collecting(StateAt(events, changed).acceptance) ==>
              StateAt(events, n).acceptedMimes == None && !Collecting(StateAt(events, n).acceptance)
    decreases n
  {
    hide After, FreshAcceptance, ChangesOffer, AcceptsOneOf, Collecting;
    var before := StateAt(events, n - 1);
    if changed == n - 1 {
      OfferResets(before, events[changed]);
    } else {
      NoConsentCarriesOver(events, changed, n - 1);
      if StateAt(events, n).acceptanceOperation != NoOperation {
        OperationOrigin(before, events[n - 1]);
      }
      if !Collecting(StateAt(events, changed).acceptance) {
        StaysUnlisted(before, events[n - 1]);
      }
    }
  }

  /* ---- Chunks of an older acceptance ---- */

  function AfterAll(d: Destination, events: seq<Event>): Destination
    decreases |events|
  {
    if events == [] then d else After(AfterAll(d, events[..|events| - 1]), events[|events| - 1])
  }

  /** Nothing among these events begins an acceptance. */
  predicate BeginsNone(d: Destination, events: seq<Event>) {
    forall k :: 0 <= k < |events| ==> !FreshAcceptance(AfterAll(d, events[..k]), events[k])
  }

  /** Some events that begin no acceptance put a list of types in force. */
  ghost predicate OlderListPossible(d: Destination) {
    exists events: seq<Event> :: BeginsNone(d, events) && AfterAll(d, events).acceptedMimes.Some?
  }

  lemma {:induction false} NoneUnlisted(d: Destination, events: seq<Event>)
    requires !Collecting(d.acceptance) && d.acceptedMimes == None && BeginsNone(d, events)
    ensures !Collecting(AfterAll(d, events).acceptance) && AfterAll(d, events).acceptedMimes == None
    decreases |events|
  {
    hide After, FreshAcceptance, Collecting;
    if events != [] {
      var initial, last := events[..|events| - 1], events[|events| - 1];
      assert forall k :: 0 <= k < |initial| ==> initial[..k] == events[..k] && initial[k] == events[k];
      NoneUnlisted(d, initial);
      StaysUnlisted(AfterAll(d, initial), last);
    }
  }

  const CLOSING_CHUNK: Event :=
    Command(DndCommand(DropMove, false, 0, 0, DndLocation(0, 0, 0, 0), [120]), data => data)

  lemma ClosingChunkLists(d: Destination)
    requires Collecting(d.acceptance) && d.hover.Some?
    ensures !FreshAcceptance(d, CLOSING_CHUNK) && After(d, CLOSING_CHUNK).acceptedMimes.Some?
  {
    hide ParseMimePayload;
    assert (d.acceptance.payload + [120])[|d.acceptance.payload|] == 120;
  }

  /**
   * A change of the offer leaves chunks behind exactly when an acceptance was being collected: only
   * then can what follows put a list in force without a fresh acceptance of the new offer.
   */
  lemma OlderChunksCountIff(d: Destination, e: Event)
    requires ChangesOffer(d, e)
    ensures OlderListPossible(After(d, e)) <==> Collecting(d.acceptance)
  {
    hide After, FreshAcceptance, Collecting, ChangesOffer;
    OfferResets(d, e);
    var after := After(d, e);
    if Collecting(d.acceptance) {
      ClosingChunkLists(after);
      var events := [CLOSING_CHUNK];
      assert events[..0] == [] && AfterAll(after, []) == after;
      assert BeginsNone(after, events) && AfterAll(after, events) == After(after, CLOSING_CHUNK);
    } else if OlderListPossible(after) {
      var events: seq<Event> :| BeginsNone(after, events) && AfterAll(after, events).acceptedMimes.Some?;
      NoneUnlisted(after, events);
    }
  }

  /** An acceptance that is already being discarded is not over, and yet leaves nothing behind. */
  lemma DiscardedLeavesNothing(d: Destination, e: Event)
    requires ChangesOffer(d, e) && d.acceptance.discarding
    ensures !d.acceptance.Idle() && !OlderListPossible(After(d, e))
  {
    hide ChangesOffer, OlderListPossible, After;
    OlderChunksCountIff(d, e);
  }

  /* ---- Where a list of accepted types comes from ---- */

  predicate HoversThroughout(events: seq<Event>, first: nat, last: nat, hover: Option<HoverState>)
    requires last <= |events|
  {
    forall j: nat :: first <= j <= last ==> StateAt(events, j).hover == hover
  }

  predicate CollectingThroughout(events: seq<Event>, first: nat, last: nat)
    requires last <= |events|
  {
    forall j: nat :: first < j <= last ==> Collecting(StateAt(events, j).acceptance)
  }

  /** What is being collected was begun by one acceptance and is all its chunks since. */
  lemma {:induction false} CollectionWasBegun(events: seq<Event>, n: nat) returns (began: nat)
    requires n <= |events| && Collecting(StateAt(events, n).acceptance)
    ensures BegunAt(events, began, n) && CollectingThroughout(events, began, n)
    ensures StateAt(events, n).acceptance.payload == ChunksBetween(events, began, n)
    decreases n
  {
    hide After, FreshAcceptance, PayloadOf;
    var before, e := StateAt(events, n - 1), events[n - 1];
    HoverlessIsEmpty(events, n - 1);
    CollectingStep(before, e);
    if FreshAcceptance(before, e) {
      began := n - 1;
    } else {
      began := CollectionWasBegun(events, n - 1);
    }
  }

  /** While something hovers, the offer stays exactly as long as no event changes it. */
  lemma {:induction false} OfferStays(events: seq<Event>, first: nat, last: nat)
    requires first <= last <= |events| && forall j: nat :: first <= j <= last ==> StateAt(events, j).hover.Some?
    ensures (forall j: nat :: first <= j < last ==> !ChangesOffer(StateAt(events, j), events[j]))
       <==> HoversThroughout(events, first, last, StateAt(events, last).hover)
    decreases last
  {
    hide After, ChangesOffer;
    if first < last {
      OfferStays(events, first, last - 1);
      assert StateAt(events, last).hover.Some?;
      OfferStep(StateAt(events, last - 1), events[last - 1]);
      if HoversThroughout(events, first, last, StateAt(events, last).hover) {
        assert StateAt(events, last - 1).hover == StateAt(events, last).hover;
      }
    }
  }

  lemma CollectingHovers(events: seq<Event>, n: nat)
    requires n <= |events| && Collecting(StateAt(events, n).acceptance)
    ensures StateAt(events, n).hover.Some?
  {
    HoverlessIsEmpty(events, n);
  }

  lemma HoverlessIsEmpty(events: seq<Event>, n: nat)
    requires n <= |events|
    ensures StateAt(events, n).hover.None? ==> StateAt(events, n).acceptance == EMPTY_INBOX
  {
    hide StateAt, ValidMimeList, TotalSize;
    RunOk(events, n);
  }

  /**
   * A list of accepted types is what the chunks of one acceptance ask for, joined. It was put in force
   * over the present offer; it was also begun over it exactly when no event changed the offer while it
   * was collected.
   */
  lemma {:induction false} MimesWereGiven(events: seq<Event>, n: nat) returns (began: nat, given: nat)
    requires n <= |events| && StateAt(events, n).acceptedMimes.Some?
    ensures began <= given < n && BegunAt(events, began, given + 1) && IsChunk(events[given])
    ensures CollectingThroughout(events, began, given)
    ensures StateAt(events, n).acceptedMimes == Some(ListIn(ChunksBetween(events, began, given + 1)))
    ensures StateAt(events, n).hover.Some? && HoversThroughout(events, given, n, StateAt(events, n).hover)
    ensures (forall j: nat :: began <= j < given ==> !ChangesOffer(StateAt(events, j), events[j]))
       <==> HoversThroughout(events, began, n, StateAt(events, n).hover)
    decreases n
  {
    hide After, ChangesOffer, FreshAcceptance, ListIn, BegunAt, CollectingThroughout;
    var before, e := StateAt(events, n - 1), events[n - 1];
    ListStep(before, e);
    if before.acceptedMimes == StateAt(events, n).acceptedMimes {
      began, given := MimesWereGiven(events, n - 1);
      ExtendHover(events, began, given, n);
    } else {
      began, given := ListCompleted(events, n - 1);
      ExtendHover(events, began, given, n);
    }
  }

  lemma LastChunk(events: seq<Event>, given: nat)
    requires given < |events|
    ensures StateAt(events, given + 1) == After(StateAt(events, given), events[given])
    ensures FreshAcceptance(StateAt(events, given), events[given]) ==>
              StateAt(events, given).hover.Some?
                && ChunksBetween(events, given, given + 1) == [] + events[given].command.payload
    ensures forall began: nat :: began <= given && IsChunk(events[given]) ==>
              ChunksBetween(events, began, given + 1)
                == ChunksBetween(events, began, given) + events[given].command.payload
  {
    hide After;
  }

  /** The chunk that puts a list in force ends what was collected, or is all of it. */
  lemma ListCompleted(events: seq<Event>, given: nat) returns (began: nat, at: nat)
    requires given < |events| && StateAt(events, given + 1).acceptedMimes.Some?
    requires StateAt(events, given).acceptedMimes != StateAt(events, given + 1).acceptedMimes
    ensures at == given && began <= given && BegunAt(events, began, given + 1) && IsChunk(events[given])
    ensures CollectingThroughout(events, began, given)
    ensures StateAt(events, given + 1).acceptedMimes == Some(ListIn(ChunksBetween(events, began, given + 1)))
    ensures StateAt(events, given).hover.Some? && StateAt(events, given + 1).hover == StateAt(events, given).hover
    ensures (forall j: nat :: began <= j < given ==> !ChangesOffer(StateAt(events, j), events[j]))
       <==> HoversThroughout(events, began, given, StateAt(events, given).hover)
  {
    hide After, ChangesOffer, ListIn, Collecting, FreshAcceptance, HoversThroughout;
    LastChunk(events, given);
    var before, e := StateAt(events, given), events[given];
    at := given;
    ListStep(before, e);
    if FreshAcceptance(before, e) {
      began := given;
    } else {
      began := CollectionWasBegun(events, given);
    }
    FreshHovers(StateAt(events, began), events[began]);
    CollectedOffer(events, began, given);
  }

  /** While chunks are collected something hovers, so the offer stays exactly as long as no event changes it. */
  lemma CollectedOffer(events: seq<Event>, began: nat, given: nat)
    requires began <= given <= |events| && StateAt(events, began).hover.Some?
    requires CollectingThroughout(events, began, given)
    ensures (forall j: nat :: began <= j < given ==> !ChangesOffer(StateAt(events, j), events[j]))
       <==> HoversThroughout(events, began, given, StateAt(events, given).hover)
  {
    hide StateAt, ChangesOffer, HoversThroughout, Collecting;
    forall j: nat | began < j <= given ensures StateAt(events, j).hover.Some? {
      assert Collecting(StateAt(events, j).acceptance);
      CollectingHovers(events, j);
    }
    OfferStays(events, began, given);
  }

  lemma ExtendHover(events: seq<Event>, began: nat, given: nat, n: nat)
    requires began <= given < n <= |events| && StateAt(events, n).hover == StateAt(events, n - 1).hover
    ensures HoversThroughout(events, given, n - 1, StateAt(events, n - 1).hover) ==>
              HoversThroughout(events, given, n, StateAt(events, n).hover)
    ensures HoversThroughout(events, began, n - 1, StateAt(events, n - 1).hover)
       <==> HoversThroughout(events, began, n, StateAt(events, n).hover)
  {
    hide StateAt;
  }

  /* ---- Where retained data comes from ---- */

  lemma DropOrigin(d: Destination, e: Event)
    requires After(d, e).droppedData.Some?
    ensures After(d, e).droppedData == d.droppedData
         || (e.Released? && d.enabled && After(d, e).droppedData == Some(e.data)
             && DropRefusal(d, e.allowed, e.data).None?)
  {
    hide ValidateMimeList, JoinMimes, ParseMimePayload, DataActions, DropRefusal, AcceptsOneOf;
  }

  predicate KeptThroughout(events: seq<Event>, first: nat, last: nat, data: Option<seq<DropData>>)
    requires last <= |events|
  {
    forall j: nat :: first <= j <= last ==> StateAt(events, j).droppedData == data
  }

  lemma {:induction false} RetainedWasReleased(events: seq<Event>, n: nat) returns (released: nat)
    requires n <= |events| && StateAt(events, n).droppedData.Some?
    ensures released < n && events[released].Released? && Some(events[released].data) == StateAt(events, n).droppedData
    ensures StateAt(events, released).enabled
    ensures DropRefusal(StateAt(events, released), events[released].allowed, events[released].data).None?
    ensures KeptThroughout(events, released + 1, n, StateAt(events, n).droppedData)
    decreases n
  {
    hide After, DropRefusal;
    DropOrigin(StateAt(events, n - 1), events[n - 1]);
    if StateAt(events, n - 1).droppedData == StateAt(events, n).droppedData {
      released := RetainedWasReleased(events, n - 1);
    } else {
      released := n - 1;
    }
  }

  lemma RefusalRules(d: Destination, allowed: DndOperation, data: seq<DropData>)
    requires DropRefusal(d, allowed, data).None?
    ensures AcceptedOperation(d) != NoOperation && allowed.Permits(AcceptedOperation(d))
    ensures TotalSize(data) <= MAX_LOCAL_DROP_BYTES && ValidMimeList(MimesOf(data))
    ensures AcceptsOneOf(d.acceptedMimes, MimesOf(data))
  {
    hide ValidMimeList, ValidateMimeList, AllValid, AcceptsOneOf, TotalSize;
    ValidationIsExact(MimesOf(data));
  }

  /**
   * Retained data was released by the user over an offer that the latest acceptance began for: both the
   * hovering offer and the drop permit the accepted operation, one of the dropped types is accepted, and
   * the data is within the limit. The accepted types are those of that acceptance exactly when it was
   * whole at the release.
   */
  lemma RetainedWasConsented(events: seq<Event>, n: nat) returns (granted: nat, released: nat)
    requires n <= |events| && StateAt(events, n).droppedData.Some?
    ensures granted < released < n && BegunAt(events, granted, released)
    ensures events[released].Released? && KeptThroughout(events, released + 1, n, Some(events[released].data))
    ensures var d, operation := StateAt(events, released), FromClient(events[granted].command.operation);
            && d.hover.Some? && d.hover.value.allowedOperation.Permits(operation)
            && events[released].allowed.Permits(operation) && d.hover == StateAt(events, granted).hover
            && HeldThroughout(events, granted + 1, released, d.hover, operation)
            && AcceptsOneOf(d.acceptedMimes, MimesOf(events[released].data))
    ensures InForce(StateAt(events, released), ChunksBetween(events, granted, released),
                    StateAt(events, granted).acceptedMimes)
    ensures TotalSize(events[released].data) <= MAX_LOCAL_DROP_BYTES && ValidMimeList(MimesOf(events[released].data))
  {
    hide After, DropRefusal, AcceptsOneOf, BegunAt, InForce, ValidMimeList, AcceptedOperation, TotalSize;
    released := RetainedWasReleased(events, n);
    RefusalRules(StateAt(events, released), events[released].allowed, events[released].data);
    granted := AcceptedWasGranted(events, released);
    Earlier(events, granted, released);
  }

  lemma Earlier(events: seq<Event>, granted: nat, n: nat)
    requires n <= |events| && BegunAt(events, granted, n)
    ensures granted < n && events[granted].Command?
  {}

  /* ---- After a finished drop ---- */

  lemma FinishLeavesNothing(d: Destination, e: Event, action: DndAction)
    requires e.Command? && action in HandleCommand(d, e.command, e.base64).1 && action.DropFinished?
    ensures After(d, e).droppedData == None && After(d, e).hover == None
    ensures After(d, e).acceptanceOperation == NoOperation
  {
    hide AcceptRegistration, AcceptDropStatus, EncodeFrames;
    if e.command.commandType == AcceptDrops {
      RegistrationFinishesNothing(d, e.command);
    }
  }

  lemma RegistrationFinishesNothing(d: Destination, command: DndCommand)
    ensures forall action :: action in AcceptRegistration(d, command).1 ==> !action.DropFinished?
  {
    hide ParseMimePayload;
  }

  /** After a step that reports a finished drop, data is retained only for a new acceptance and a new drop. */
  lemma FinishedDropsStayFinished(events: seq<Event>, finished: nat, n: nat, action: DndAction)
    returns (granted: nat, released: nat)
    requires finished < n <= |events| && events[finished].Command? && action.DropFinished?
    requires action in HandleCommand(StateAt(events, finished), events[finished].command, events[finished].base64).1
    requires StateAt(events, n).droppedData.Some?
    ensures finished < granted < released < n
    ensures BegunAt(events, granted, released) && events[released].Released?
    ensures StateAt(events, n).droppedData == Some(events[released].data)
  {
    hide After, HandleCommand, AcceptsOneOf, InForce, BegunAt, ValidMimeList, TotalSize;
    granted, released := RetainedWasConsented(events, n);
    FinishLeavesNothing(StateAt(events, finished), events[finished], action);
    assert StateAt(events, finished + 1) == After(StateAt(events, finished), events[finished]);
    assert released > finished;
    Earlier(events, granted, released);
  }
}
