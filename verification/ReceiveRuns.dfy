/** What holds of a receive session over everything it is asked for, and of a file fetched by rsync. */
module ReceiveRuns {
  import opened Bytes
  import opened ByteStreams
  import opened Signatures
  import opened DeltaFormat
  import opened DeltaWriter
  import opened DeltaPatcher
  import opened RoundTrip = DeltaRoundTrip
  import opened TransferCommands
  import opened MapSums
  import opened ReceiveTree
  import opened ReceiveSessions
  import opened ReceiveFrames
  import opened ReceiveFilesystem

  /** What a peer does once the listing is complete. */
  datatype Event =
    | Transmit(name: Text, id: Text, rsync: bool, io: FilesIo)
    | Sign(id: Text, data: seq<byte>, completes: bool)

  predicate HandsOut(s: ReceiveSession, e: Event) {
    e.Transmit? && e.id !in s.transmittedIds && e.name in s.sources && s.sources[e.name] != []
  }

  function After(s: ReceiveSession, e: Event): ReceiveSession {
    if HandsOut(s, e) then Transmitted(s, e.name, e.id, e.rsync, e.io)
    else if e.Sign? && e.id in s.rsync then Signed(s, e.id, e.data, e.completes)
    else s
  }

  function AfterAll(s: ReceiveSession, events: seq<Event>): ReceiveSession
    decreases |events|
  {
    if events == [] then s else AfterAll(After(s, events[0]), events[1..])
  }

  /** The executor's calls are these steps. */
  lemma CallsAreSteps(l: ReceiveLimits, before: Sessions, command: FileTransferCommand, io: FilesIo, after: Sessions,
                      answer: Answer)
    requires command.id in before && ReceiveOk(l, before[command.id]) && command.fileId.Some?
    ensures command.name.Some? && Transmits(before, command, io, after, answer) ==>
              && command.id in after
              && after[command.id]
                 == After(before[command.id],
                          Transmit(command.name.value, command.fileId.value, AsksRsync(command), io))
    ensures TakesSignature(before, command, io, after, answer) ==>
              && command.id in after
              && after[command.id]
                 == After(before[command.id], Sign(command.fileId.value, command.data, command.action == EndData))
  {
    hide TransmitAnswers, SignatureAnswers, Transmitted, Signed, Conserved, SignaturesOk, CountersOk;
  }

  /* ---- Conservation ---- */

  lemma AfterOk(l: ReceiveLimits, s: ReceiveSession, e: Event)
    requires ReceiveOk(l, s)
    ensures ReceiveOk(l, After(s, e))
  {
    hide ReceiveOk, Transmitted, Signed;
    if HandsOut(s, e) {
      TransmittedOk(l, s, e.name, e.id, e.rsync, e.io);
    } else if e.Sign? && e.id in s.rsync {
      SignedOk(l, s, e.id, e.data, e.completes);
    }
  }

  /** Whatever is asked for, ids used and sources queued add up to what was listed, and the signature bounds hold. */
  lemma {:induction false} ReceiveConserved(l: ReceiveLimits, s: ReceiveSession, events: seq<Event>)
    requires ReceiveOk(l, s)
    ensures ReceiveOk(l, AfterAll(s, events))
    decreases |events|
  {
    hide ReceiveOk, After;
    if events != [] {
      AfterOk(l, s, events[0]);
      ReceiveConserved(l, After(s, events[0]), events[1..]);
    }
  }

  /* ---- Every source is handed out once, in listing order ---- */

  function Queue(sources: map<Text, seq<ReceiveSource>>, name: Text): seq<ReceiveSource> {
    if name in sources then sources[name] else []
  }

  function Handed(s: ReceiveSession, e: Event, name: Text): seq<ReceiveSource> {
    if HandsOut(s, e) && e.name == name then [s.sources[name][0]] else []
  }

  /** The sources handed out for a name, in order. */
  function HandedAll(s: ReceiveSession, events: seq<Event>, name: Text): seq<ReceiveSource>
    decreases |events|
  {
    if events == [] then [] else Handed(s, events[0], name) + HandedAll(After(s, events[0]), events[1..], name)
  }

  lemma SourcesAfter(s: ReceiveSession, e: Event)
    ensures After(s, e).sources == if HandsOut(s, e) then Dequeue(s.sources, e.name) else s.sources
    ensures After(s, e).transmittedIds == if HandsOut(s, e) then s.transmittedIds + {e.id} else s.transmittedIds
  {}

  lemma HandedOnce(s: ReceiveSession, e: Event, name: Text)
    ensures Handed(s, e, name) + Queue(After(s, e).sources, name) == Queue(s.sources, name)
  {}

  lemma {:induction false} HandedInOrder(s: ReceiveSession, events: seq<Event>, name: Text)
    ensures HandedAll(s, events, name) + Queue(AfterAll(s, events).sources, name) == Queue(s.sources, name)
    decreases |events|
  {
    hide After, Handed, Queue;
    if events == [] {
      assert [] + Queue(s.sources, name) == Queue(s.sources, name);
    } else {
      HandedOnce(s, events[0], name);
      HandedInOrder(After(s, events[0]), events[1..], name);
      Append3(Handed(s, events[0], name), HandedAll(After(s, events[0]), events[1..], name),
              Queue(AfterAll(s, events).sources, name));
    }
  }

  /** The sources listed under a name, in listing order. */
  function SourcesNamed(entries: seq<ListedEntry>, name: Text): seq<ReceiveSource> {
    if entries == [] then [] else
      var initial, last := entries[..|entries| - 1], entries[|entries| - 1];
      SourcesNamed(initial, name) + if last.path == name then [SourceOf(initial, last)] else []
  }

  lemma {:induction false} QueuedInOrder(sources: map<Text, seq<ReceiveSource>>, entries: seq<ListedEntry>, name: Text)
    ensures Queue(EnqueueAll(sources, entries), name) == Queue(sources, name) + SourcesNamed(entries, name)
    decreases |entries|
  {
    hide SourceOf;
    if entries != [] {
      QueuedInOrder(sources, entries[..|entries| - 1], name);
    }
  }

  /** After a listing, what was handed out for a name and what is left are exactly what was listed under it. */
  lemma OneShotSources(l: ReceiveLimits, s: ReceiveSession, events: seq<Event>, name: Text)
    requires ReceiveOk(l, s) && !s.listingComplete
    ensures HandedAll(Listed(s), events, name) + Queue(AfterAll(Listed(s), events).sources, name)
       == SourcesNamed(EntriesOf(s.entries), name)
  {
    hide EnqueueAll, SourcesNamed, HandedAll, AfterAll, NoQueueEmpty, SignaturesOk, CountersOk, Total;
    HandedInOrder(Listed(s), events, name);
    QueuedInOrder(s.sources, EntriesOf(s.entries), name);
  }

  /** The request ids that got a source, in order. */
  function Used(s: ReceiveSession, events: seq<Event>): seq<Text>
    decreases |events|
  {
    if events == [] then [] else
      (if HandsOut(s, events[0]) then [events[0].id] else []) + Used(After(s, events[0]), events[1..])
  }

  predicate FreshIds(ids: seq<Text>, used: set<Text>) {
    && (forall k :: 0 <= k < |ids| ==> ids[k] !in used)
    && forall j, k :: 0 <= j < k < |ids| ==> ids[j] != ids[k]
  }

  /** No request id gets two sources. */
  lemma {:induction false} IdsUsedOnce(s: ReceiveSession, events: seq<Event>)
    ensures FreshIds(Used(s, events), s.transmittedIds)
    decreases |events|
  {
    hide After;
    if events != [] {
      SourcesAfter(s, events[0]);
      IdsUsedOnce(After(s, events[0]), events[1..]);
    }
  }

  /* ---- Signatures arrive whole ---- */

  /** The signature data sent for an id, joined. */
  function DataFor(events: seq<Event>, id: Text): seq<byte> {
    if events == [] then [] else
      (if events[0].Sign? && events[0].id == id then events[0].data else []) + DataFor(events[1..], id)
  }

  predicate UsedUp(s: ReceiveSession, id: Text) {
    id in s.transmittedIds && id !in s.rsync
  }

  lemma UsedStays(s: ReceiveSession, e: Event, id: Text)
    requires UsedUp(s, id)
    ensures UsedUp(After(s, e), id)
  {}

  /** An id whose signature is over never awaits another. */
  lemma {:induction false} NeverAgain(s: ReceiveSession, events: seq<Event>, id: Text)
    requires UsedUp(s, id)
    ensures UsedUp(AfterAll(s, events), id)
    decreases |events|
  {
    hide UsedUp, After;
    if events != [] {
      UsedStays(s, events[0], id);
      NeverAgain(After(s, events[0]), events[1..], id);
    }
  }

  lemma SignatureAfter(s: ReceiveSession, e: Event, id: Text)
    requires id in s.rsync && id in s.transmittedIds
    ensures id in After(s, e).transmittedIds
    ensures id in After(s, e).rsync ==>
              After(s, e).rsync[id] == s.rsync[id].(signature := s.rsync[id].signature + DataFor([e], id))
  {
    hide Dequeue, SignatureFits;
    assert DataFor([e], id) == (if e.Sign? && e.id == id then e.data else []) + DataFor([], id);
  }

  /** However other requests interleave, a pending signature is all the data that was sent for it. */
  lemma {:induction false} SignatureAccumulates(s: ReceiveSession, events: seq<Event>, id: Text)
    requires id in s.rsync && id in s.transmittedIds && id in AfterAll(s, events).rsync
    ensures AfterAll(s, events).rsync[id] == s.rsync[id].(signature := s.rsync[id].signature + DataFor(events, id))
    decreases |events|
  {
    hide After;
    if events != [] {
      SignatureAfter(s, events[0], id);
      if id !in After(s, events[0]).rsync {
        NeverAgain(After(s, events[0]), events[1..], id);
      } else {
        SignatureAccumulates(After(s, events[0]), events[1..], id);
        DataForCons(events, id);
        Append3(s.rsync[id].signature, DataFor([events[0]], id), DataFor(events[1..], id));
      }
    }
  }

  lemma DataForCons(events: seq<Event>, id: Text)
    requires events != []
    ensures DataFor(events, id) == DataFor([events[0]], id) + DataFor(events[1..], id)
  {}

  /* ---- A file fetched by rsync ---- */

  function Payloads(frames: seq<Frame>): (parts: seq<seq<byte>>)
    ensures |parts| == |frames|
  {
    if frames == [] then [] else [frames[0].data] + Payloads(frames[1..])
  }

  lemma {:induction false} PayloadsJoin(frames: seq<Frame>)
    ensures Concat(Payloads(frames)) == DataOf(frames)
    decreases |frames|
  {
    if frames != [] {
      PayloadsJoin(frames[1..]);
      assert Payloads(frames)[1..] == Payloads(frames[1..]);
    }
  }

  /** What an honest written signature parses to is honest. */
  lemma ParsedIsHonest(h: Hashes, base: seq<byte>, blockSize: nat, parsed: Signature)
    requires 0 < blockSize <= MAX_BLOCK_BYTES && |base| < U64_LIMIT
    requires ParsedFrom(SignatureBytes(h, base, blockSize), parsed)
    ensures parsed.blockSize == blockSize && parsed.Honest(h, base)
  {
    hide SignatureBytes, WellFormed, DecodeRecords, AllRecords, Signature.Indexes;
    ParseWritten(h, base, blockSize);
    WellFormedSize(SignatureBytes(h, base, blockSize));
  }

  /** A signature of at most 16 MiB has too few blocks for any run of them to outgrow 32 bits. */
  lemma SignedBaseFits(h: Hashes, base: seq<byte>, blockSize: nat, parsed: Signature)
    requires 0 < blockSize <= MAX_BLOCK_BYTES && |base| < U64_LIMIT
    requires ParsedFrom(SignatureBytes(h, base, blockSize), parsed)
    ensures |base| <= U32_LIMIT * blockSize
  {
    hide SignatureBytes, DecodeRecords, Signature.Indexes;
    SignatureLength(h, base, blockSize);
    FewBlocksAreFew(|base|, blockSize);
  }

  lemma FewBlocksAreFew(length: nat, size: nat)
    requires 0 < size && CeilDiv(length, size) <= U32_LIMIT
    ensures length <= U32_LIMIT * size
  {
    BlockCount(length, size);
    assert !(U32_LIMIT * size < length);
  }

  /**
   * End to end: a peer that sent the signature of its base, and feeds the payloads of the streamed
   * frames one by one to a patcher over that base, ends up with the file that was listed.
   */
  lemma RsyncDeliversTheFile(c: Config, io: FilesIo, pending: PendingRsync, parsed: Signature, answer: Answer)
    requires c.Valid() && c.h == io.h
    requires ParsedFrom(SignatureBytes(c.h, c.base, c.blockSize), parsed) && 0 < parsed.blockSize
    requires SendsDelta(io, pending, parsed, answer) && answer.result == Streamed
    requires io.Unchanged(pending.size, pending.identity) && pending.size <= c.limit
    requires CollisionFree(c.h, c.base, c.blockSize, io.content(pending.identity))
    ensures RunAll(c, INITIAL, Payloads(answer.frames)) == Ok(State(io.content(pending.identity), [], 0, true))
  {
    hide SignatureBytes, ParsedFrom, CollisionFree, DeltaOps, DeltaBytes, AllEncodable, Frames, DataOf, Payloads;
    hide RunAll, Signature.Honest;
    var source := io.content(pending.identity);
    ParsedIsHonest(c.h, c.base, c.blockSize, parsed);
    SignedBaseFits(c.h, c.base, c.blockSize, parsed);
    RunsEncodable(c, parsed, source);
    assert source[..pending.size] == source;
    FramesCarry(DeltaBytes(c.h, parsed, source));
    PayloadsJoin(answer.frames);
    RoundTrip.DeltaRoundTrip(c, parsed, source, Payloads(answer.frames));
  }
}
