/** Cutting an OSC 72 payload into frames. */
module DndFrames {
  import opened Bytes

  const MAX_DND_CHUNK_BYTES := 4096

  type i32 = n: int | -0x8000_0000 <= n < 0x8000_0000

  datatype DndCommandType =
    | AcceptDrops | StopAcceptingDrops | DropMove | Drop | RequestData | RequestError | OfferDrag | PresentData
    | ChangeDragImage | DragOfferEvent | DragOfferError | UriListData | Query

  datatype DndOperation = NoOperation | Copy | Move | Either
  {
    /** Whether an offer of this operation lets the other side select that one. */
    predicate Permits(selected: DndOperation) {
      || (this == Copy && selected == Copy)
      || (this == Move && selected == Move)
      || (this == Either && (selected == Copy || selected == Move))
    }
  }

  datatype DndLocation = DndLocation(cellX: i32, cellY: i32, pixelX: i32, pixelY: i32)

  /** Only the first frame says what it is; `more` is left out where a single frame says it all. */
  datatype DndHeader = DndHeader(commandType: DndCommandType, operation: Option<DndOperation>,
                                 location: Option<DndLocation>)

  datatype DndFrame = DndFrame(header: Option<DndHeader>, more: Option<bool>, clientId: Option<u32>, chunk: seq<byte>)

  function ChunkCount(length: nat): nat {
    if length == 0 then 1 else CeilDiv(length, MAX_DND_CHUNK_BYTES)
  }

  function ChunkAt(payload: seq<byte>, index: nat): seq<byte> {
    var start := Min(index * MAX_DND_CHUNK_BYTES, |payload|);
    payload[start..Min(start + MAX_DND_CHUNK_BYTES, |payload|)]
  }

  function EncodeFrames(header: DndHeader, clientId: u32, payload: seq<byte>): (frames: seq<DndFrame>)
    ensures |frames| == ChunkCount(|payload|)
  {
    var chunks := ChunkCount(|payload|);
    seq(chunks, index requires 0 <= index < chunks =>
      var more := index + 1 < chunks;
      DndFrame(if index == 0 then Some(header) else None,
               if more || index > 0 then Some(more) else None,
               if clientId != 0 then Some(clientId) else None,
               ChunkAt(payload, index)))
  }

  /* ---- What a reader puts together again ---- */

  /** A frame without a `more` field is the last of its message. */
  predicate IsLast(frame: DndFrame) {
    frame.more != Some(true)
  }

  function Joined(frames: seq<DndFrame>): seq<byte> {
    if frames == [] then [] else Joined(frames[..|frames| - 1]) + frames[|frames| - 1].chunk
  }

  /** One message: headed once, ended once, in chunks within the limit of which all but the last are full. */
  predicate OneMessage(frames: seq<DndFrame>, header: DndHeader, payload: seq<byte>) {
    && frames != [] && Joined(frames) == payload
    && (forall k :: 0 <= k < |frames| ==> (frames[k].header == if k == 0 then Some(header) else None))
    && (forall k :: 0 <= k < |frames| ==> (IsLast(frames[k]) <==> k == |frames| - 1))
    && (forall k :: 0 <= k < |frames| - 1 ==> |frames[k].chunk| == MAX_DND_CHUNK_BYTES)
    && |frames[|frames| - 1].chunk| <= MAX_DND_CHUNK_BYTES
    && (frames[|frames| - 1].chunk == [] ==> payload == [])
  }

  lemma ChunkCountBounds(length: nat)
    ensures (ChunkCount(length) - 1) * MAX_DND_CHUNK_BYTES <= length <= ChunkCount(length) * MAX_DND_CHUNK_BYTES
    ensures length > 0 ==> (ChunkCount(length) - 1) * MAX_DND_CHUNK_BYTES < length
  {}

  lemma {:induction false} JoinedPrefix(header: DndHeader, clientId: u32, payload: seq<byte>, k: nat)
    requires k <= ChunkCount(|payload|)
    ensures Joined(EncodeFrames(header, clientId, payload)[..k]) == payload[..Min(k * MAX_DND_CHUNK_BYTES, |payload|)]
    decreases k
  {
    if k > 0 {
      var frames := EncodeFrames(header, clientId, payload);
      JoinedPrefix(header, clientId, payload, k - 1);
      assert frames[..k][..k - 1] == frames[..k - 1] && frames[..k][k - 1].chunk == ChunkAt(payload, k - 1);
    }
  }

  /** Whatever the payload, its frames are one message that carries it. */
  lemma FramesAreOneMessage(header: DndHeader, clientId: u32, payload: seq<byte>)
    ensures OneMessage(EncodeFrames(header, clientId, payload), header, payload)
    ensures forall frame :: frame in EncodeFrames(header, clientId, payload) ==>
              frame.clientId == if clientId == 0 then None else Some(clientId)
  {
    var frames := EncodeFrames(header, clientId, payload);
    JoinedPrefix(header, clientId, payload, |frames|);
    ChunkCountBounds(|payload|);
    assert frames[..|frames|] == frames;
    hide Joined;
  }
}
