/** A run in which a list begun for one offer is honoured for the next. */
module DndOlderChunks {
  import opened Bytes
  import opened DndMimes
  import opened DndFrames
  import opened DndDestinations
  import opened DndRuns
  import opened DndConsent

  const ORIGIN := DndLocation(0, 0, 0, 0)
  const A: Mime := [97]
  const B: Mime := [98]

  function Chunk(operation: u32, more: bool, payload: seq<byte>): Event {
    Command(DndCommand(DropMove, more, 0, operation, ORIGIN, payload), data => data)
  }

  const ENABLE: Event := Command(DndCommand(AcceptDrops, false, 0, 0, ORIGIN, []), data => data)
  const DROP_B: Event := Released(ORIGIN, Copy, [DropData(B, [])])

  /**
   * An offer of A, an unfinished acceptance, an offer of B, the end of the old acceptance, the start of
   * a new one, and a drop.
   */
  const EVENTS: seq<Event> :=
    [ENABLE, Moved(ORIGIN, Copy, [A]), Chunk(1, true, B), Moved(ORIGIN, Copy, [B]), Chunk(0, false, []),
     Chunk(1, true, [122]), DROP_B]

  function Hovering(mimes: seq<Mime>, acceptance: Inbox, operation: DndOperation,
                    accepted: Option<seq<Mime>>): Destination {
    INITIAL.(enabled := true, hover := Some(HoverState(mimes, Copy)), acceptance := acceptance,
             acceptanceOperation := operation, acceptedMimes := accepted)
  }

  lemma OneMime(mime: Mime)
    requires mime == A || mime == B
    ensures ValidMimeList([mime]) && JoinMimes([mime]) == mime
    ensures ValidateMimeList([mime]) == None && ParseMimePayload(mime) == Some([mime])
  {
    assert ValidMime(mime);
    ParseUndoesJoin([mime]);
    ValidationIsExact([mime]);
    hide ParseMimePayload, ValidateMimeList;
  }

  lemma Enabling()
    ensures After(INITIAL, ENABLE) == INITIAL.(enabled := true)
  {
    NoList();
    var nothing: seq<byte> := [];
    assert nothing + nothing == nothing;
    hide ParseMimePayload;
  }

  lemma Offering(mime: Mime, d: Destination)
    requires (mime == A || mime == B) && d.enabled && (d.hover.None? || d.hover.value.offeredMimes != [mime])
    ensures After(d, Moved(ORIGIN, Copy, [mime]))
         == d.(hover := Some(HoverState([mime], Copy)), acceptanceOperation := NoOperation, acceptedMimes := None)
    ensures ChangesOffer(d, Moved(ORIGIN, Copy, [mime]))
  {
    OneMime(mime);
    hide ValidateMimeList, JoinMimes, ValidMimeList, ParseMimePayload;
  }

  lemma Beginning(mimes: seq<Mime>, payload: seq<byte>, kept: seq<byte>, accepted: Option<seq<Mime>>)
    requires |payload| == 1
    ensures After(Hovering(mimes, Inbox(kept, false, false), NoOperation, accepted), Chunk(1, true, payload))
         == Hovering(mimes, Inbox(payload, true, false), Copy, accepted)
  {
    assert [] + payload == payload;
  }

  lemma Ending()
    ensures After(Hovering([B], Inbox(B, true, false), NoOperation, None), Chunk(0, false, []))
         == Hovering([B], Inbox(B, false, false), NoOperation, Some([B]))
  {
    assert B + [] == B;
    OneMime(B);
    hide ParseMimePayload;
  }

  lemma Dropping(acceptance: Inbox)
    ensures DropRefusal(Hovering([B], acceptance, Copy, Some([B])), Copy, [DropData(B, [])]).None?
    ensures AcceptedOperation(Hovering([B], acceptance, Copy, Some([B]))) == Copy
  {
    OneMime(B);
    assert MimesOf([DropData(B, [])]) == [B];
    assert TotalSize([DropData(B, [])]) == 0;
    assert B in [B];
    hide ParseMimePayload, ValidateMimeList, JoinMimes, TotalSize;
  }

  lemma Stepping(k: nat)
    requires k < |EVENTS|
    ensures StateAt(EVENTS, k + 1) == After(StateAt(EVENTS, k), EVENTS[k])
  {}

  lemma FirstOffer()
    ensures StateAt(EVENTS, 2) == Hovering([A], EMPTY_INBOX, NoOperation, None)
  {
    hide After;
    Stepping(0);
    Enabling();
    Stepping(1);
    Offering(A, INITIAL.(enabled := true));
  }

  lemma SecondOffer()
    ensures StateAt(EVENTS, 3) == Hovering([A], Inbox(B, true, false), Copy, None)
    ensures StateAt(EVENTS, 4) == Hovering([B], Inbox(B, true, false), NoOperation, None)
    ensures ChangesOffer(StateAt(EVENTS, 3), EVENTS[3])
  {
    hide After;
    FirstOffer();
    Stepping(2);
    Beginning([A], B, [], None);
    Stepping(3);
    Offering(B, StateAt(EVENTS, 3));
  }

  lemma OldList()
    ensures StateAt(EVENTS, 5) == Hovering([B], Inbox(B, false, false), NoOperation, Some([B]))
    ensures StateAt(EVENTS, 6) == Hovering([B], Inbox([122], true, false), Copy, Some([B]))
  {
    hide After, StateAt;
    SecondOffer();
    Stepping(4);
    Ending();
    Stepping(5);
    Beginning([B], [122], B, Some([B]));
  }

  /**
   * The offer changes after event 2 began an acceptance; the last chunk of that acceptance puts its list
   * in force for the new offer, and data is retained on it while the next acceptance is unfinished.
   */
  lemma OlderListIsHonoured()
    ensures ChangesOffer(StateAt(EVENTS, 3), EVENTS[3]) && StateAt(EVENTS, 4).acceptedMimes == None
    ensures forall j: nat :: 4 <= j < 5 ==> !FreshAcceptance(StateAt(EVENTS, j), EVENTS[j])
    ensures StateAt(EVENTS, 5).acceptedMimes == Some([B])
    ensures AcceptedOperation(StateAt(EVENTS, 6)) == Copy && Collecting(StateAt(EVENTS, 6).acceptance)
    ensures StateAt(EVENTS, 7).droppedData == Some([DropData(B, [])])
  {
    hide StateAt, DropRefusal, JoinMimes, AcceptedOperation;
    SecondOffer();
    OldList();
    Stepping(6);
    Dropping(Inbox([122], true, false));
  }
}
