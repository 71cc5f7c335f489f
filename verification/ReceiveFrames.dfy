/** Cutting a byte stream into protocol frames, and the three streams that are sent that way. */
module ReceiveFrames {
  import opened Bytes
  import opened ByteStreams
  import opened Signatures
  import opened DeltaFormat
  import opened DeltaWriter
  import opened TransferCommands

  /** One `data` command, or the `end_data` command that closes the file. */
  datatype Frame = Frame(last: bool, data: seq<byte>)

  /** The frames of a stream: full chunks, then one last frame that is empty only for an empty stream. */
  function Frames(bytes: seq<byte>): (frames: seq<Frame>)
    ensures frames != []
  {
    if |bytes| <= MAX_FILE_TRANSFER_CHUNK_BYTES then [Frame(true, bytes)]
    else [Frame(false, bytes[..MAX_FILE_TRANSFER_CHUNK_BYTES])] + Frames(bytes[MAX_FILE_TRANSFER_CHUNK_BYTES..])
  }

  function DataOf(frames: seq<Frame>): seq<byte> {
    if frames == [] then [] else frames[0].data + DataOf(frames[1..])
  }

  /** Frames carry the stream: in order, in full chunks, closed once, with an empty frame only for nothing. */
  lemma {:induction false} FramesCarry(bytes: seq<byte>)
    ensures DataOf(Frames(bytes)) == bytes
    ensures var frames := Frames(bytes);
            && (forall k :: 0 <= k < |frames| - 1 ==>
                  !frames[k].last && |frames[k].data| == MAX_FILE_TRANSFER_CHUNK_BYTES)
            && frames[|frames| - 1].last && |frames[|frames| - 1].data| <= MAX_FILE_TRANSFER_CHUNK_BYTES
            && (frames[|frames| - 1].data == [] ==> bytes == [])
    decreases |bytes|
  {
    if |bytes| <= MAX_FILE_TRANSFER_CHUNK_BYTES {
      assert Frames(bytes)[1..] == [];
    } else {
      var rest := bytes[MAX_FILE_TRANSFER_CHUNK_BYTES..];
      FramesCarry(rest);
      assert Frames(bytes)[1..] == Frames(rest);
      assert bytes == bytes[..MAX_FILE_TRANSFER_CHUNK_BYTES] + rest;
    }
  }

  /** `emitted` are the full frames that must precede whatever follows `given`, and `pending` is the rest. */
  ghost predicate Framed(given: seq<byte>, emitted: seq<Frame>, pending: seq<byte>) {
    && (forall k :: 0 <= k < |emitted| ==> !emitted[k].last && |emitted[k].data| == MAX_FILE_TRANSFER_CHUNK_BYTES)
    && given == DataOf(emitted) + pending
    && |pending| <= MAX_FILE_TRANSFER_CHUNK_BYTES
    && (pending == [] ==> emitted == [])
  }

  /** As `Framed`, but a full chunk may have gone out before the data that follows it is there. */
  ghost predicate Cut(given: seq<byte>, emitted: seq<Frame>, pending: seq<byte>) {
    && (forall k :: 0 <= k < |emitted| ==> !emitted[k].last && |emitted[k].data| == MAX_FILE_TRANSFER_CHUNK_BYTES)
    && given == DataOf(emitted) + pending
    && |pending| <= MAX_FILE_TRANSFER_CHUNK_BYTES
  }

  lemma CutGrows(given: seq<byte>, emitted: seq<Frame>, pending: seq<byte>, piece: seq<byte>)
    requires Cut(given, emitted, pending) && piece != [] && |pending| + |piece| <= MAX_FILE_TRANSFER_CHUNK_BYTES
    ensures Framed(given + piece, emitted, pending + piece)
  {
    hide DataOf;
    assert DataOf(emitted) + pending + piece == DataOf(emitted) + (pending + piece);
  }

  /** The frames are the first ones, and not all, of any stream that begins with these bytes. */
  ghost predicate CutShort(bytes: seq<byte>, emitted: seq<Frame>) {
    forall more: seq<byte> :: emitted < Frames(bytes + more)
  }

  lemma CutShortAt(bytes: seq<byte>, emitted: seq<Frame>, more: seq<byte>)
    requires CutShort(bytes, emitted)
    ensures emitted < Frames(bytes + more)
  {
    hide Frames;
  }

  /** A sink that closes on a full chunk has taken the first frames of whatever was to come. */
  lemma ClosedOnChunk(given: seq<byte>, emitted: seq<Frame>, pending: seq<byte>, rest: seq<byte>)
    requires Framed(given, emitted, pending)
    ensures CutShort(given + rest, emitted)
  {
    hide Framed, Frames;
    forall more: seq<byte>
      ensures emitted < Frames(given + rest + more)
    {
      FramedPrefix(given, emitted, pending, rest + more);
      assert given + rest + more == given + (rest + more);
    }
  }

  lemma {:induction false} DataOfSnoc(frames: seq<Frame>, frame: Frame)
    ensures DataOf(frames + [frame]) == DataOf(frames) + frame.data
  {
    if frames == [] {
      assert frames + [frame] == [frame] && [frame][1..] == [];
    } else {
      DataOfSnoc(frames[1..], frame);
      assert (frames + [frame])[1..] == frames[1..] + [frame];
    }
  }

  /** However more data comes, what was emitted comes first. */
  lemma {:induction false} FramedPrefix(given: seq<byte>, emitted: seq<Frame>, pending: seq<byte>, more: seq<byte>)
    requires Framed(given, emitted, pending)
    ensures Frames(given + more) == emitted + Frames(pending + more)
    decreases |emitted|
  {
    if emitted == [] {
      assert given == pending && [] + Frames(pending + more) == Frames(pending + more);
    } else {
      var first := emitted[0].data;
      var rest := DataOf(emitted[1..]) + pending;
      assert given == first + rest;
      assert (given + more)[..MAX_FILE_TRANSFER_CHUNK_BYTES] == first;
      assert (given + more)[MAX_FILE_TRANSFER_CHUNK_BYTES..] == rest + more;
      FramedPrefix(rest, emitted[1..], pending, more);
      assert emitted == [Frame(false, first)] + emitted[1..];
      FramesUnfold(given + more);
    }
  }

  lemma FramesUnfold(bytes: seq<byte>)
    ensures |bytes| > MAX_FILE_TRANSFER_CHUNK_BYTES ==>
              Frames(bytes) == [Frame(false, bytes[..MAX_FILE_TRANSFER_CHUNK_BYTES])]
                + Frames(bytes[MAX_FILE_TRANSFER_CHUNK_BYTES..])
  {}

  /** Collects data and emits it in protocol frames; the sink may close at any frame. */
  class ProtocolChunkWriter {
    const sinkAccepts: nat -> bool
    var emitted: seq<Frame>
    var pending: seq<byte>
    ghost var given: seq<byte>

    ghost predicate Valid()
      reads this
    {
      Framed(given, emitted, pending)
    }

    constructor (sinkAccepts: nat -> bool)
      ensures Valid() && given == [] && emitted == [] && this.sinkAccepts == sinkAccepts
    {
      this.sinkAccepts := sinkAccepts;
      emitted, pending, given := [], [], [];
    }

    method EmitPending(last: bool) returns (ok: bool)
      modifies this
      ensures ok == sinkAccepts(|old(emitted)|)
      ensures pending == [] && given == old(given)
      ensures emitted == if ok then old(emitted) + [Frame(last, old(pending))] else old(emitted)
    {
      var data := pending;
      pending := [];
      ok := sinkAccepts(|emitted|);
      if ok {
        emitted := emitted + [Frame(last, data)];
      }
    }

    /** Send a full chunk, now that more data follows it. */
    method EmitFull(ghost rest: seq<byte>) returns (ok: bool)
      requires Valid() && |pending| == MAX_FILE_TRANSFER_CHUNK_BYTES
      modifies this
      ensures given == old(given)
      ensures ok ==> pending == [] && Cut(given, emitted, [])
      ensures !ok ==> CutShort(given + rest, emitted) && !sinkAccepts(|emitted|)
    {
      hide Frames, DataOf, CutShort;
      ClosedOnChunk(given, emitted, pending, rest);
      DataOfSnoc(emitted, Frame(false, pending));
      ghost var all := DataOf(emitted) + pending;
      ok := EmitPending(false);
      assert all + [] == all;
    }

    /** Frames depend only on all the data given, not on how it was cut into writes. */
    method Write(buffer: seq<byte>) returns (ok: bool)
      requires Valid()
      modifies this
      ensures ok ==> Valid() && given == old(given) + buffer
      ensures !ok ==> CutShort(old(given) + buffer, emitted) && !sinkAccepts(|emitted|)
    {
      hide Frames, DataOf, CutShort;
      var rest := buffer;
      while rest != []
        invariant Valid() && given + rest == old(given) + buffer
        decreases |rest|
      {
        if |pending| == MAX_FILE_TRANSFER_CHUNK_BYTES {
          ok := EmitFull(rest);
          if !ok {
            return;
          }
        }
        var take := Min(MAX_FILE_TRANSFER_CHUNK_BYTES - |pending|, |rest|);
        CutGrows(given, emitted, pending, rest[..take]);
        pending := pending + rest[..take];
        given := given + rest[..take];
        assert rest == rest[..take] + rest[take..];
        rest := rest[take..];
      }
      return true;
    }

    method Finish() returns (ok: bool)
      requires Valid()
      modifies this
      ensures ok ==> emitted == Frames(given)
      ensures !ok ==> emitted < Frames(given) && !sinkAccepts(|emitted|)
      ensures given == old(given)
    {
      FramedPrefix(given, emitted, pending, []);
      assert given + [] == given && pending + [] == pending;
      ok := EmitPending(true);
    }
  }

  datatype StreamResult = Streamed | SinkClosed | SourceTruncated | DeltaFailed

  method StreamBytes(data: seq<byte>, sinkAccepts: nat -> bool) returns (r: StreamResult, emitted: seq<Frame>)
    ensures r in {Streamed, SinkClosed}
    ensures r == Streamed ==> emitted == Frames(data)
    ensures r == SinkClosed ==> emitted < Frames(data) && !sinkAccepts(|emitted|)
  {
    hide Frames;
    hide CutShort;
    var chunks := new ProtocolChunkWriter(sinkAccepts);
    assert [] + data == data && data + [] == data;
    var ok := chunks.Write(data);
    if ok {
      ok := chunks.Finish();
    } else {
      CutShortAt(data, chunks.emitted, []);
    }
    return if ok then Streamed else SinkClosed, chunks.emitted;
  }

  const READ_BUFFER_BYTES := 32 * 1024

  /** Stream the listed size of a file; a file that has become shorter ends the stream without a last frame. */
  method StreamFile(file: ByteSource, expectedSize: nat, sinkAccepts: nat -> bool)
    returns (r: StreamResult, emitted: seq<Frame>)
    requires file.Valid() && file.position == 0
    modifies file
    ensures r == Streamed ==> expectedSize <= |file.data| && emitted == Frames(file.data[..expectedSize])
    ensures r == SourceTruncated ==> |file.data| < expectedSize && emitted < Frames(file.data)
    ensures r == SinkClosed ==> !sinkAccepts(|emitted|) && emitted < Frames(file.data[..Min(expectedSize, |file.data|)])
    ensures r != DeltaFailed
  {
    hide Frames, DataOf, CutShort, Framed;
    ghost var whole := file.data[..Min(expectedSize, |file.data|)];
    var remaining := expectedSize;
    var buffer := new byte[READ_BUFFER_BYTES];
    var chunks := new ProtocolChunkWriter(sinkAccepts);
    while remaining != 0
      invariant 0 <= remaining <= expectedSize && file.Valid() && chunks.Valid() && fresh(chunks) && fresh(buffer)
      invariant buffer.Length == READ_BUFFER_BYTES && chunks.sinkAccepts == sinkAccepts
      invariant file.position == expectedSize - remaining && chunks.given == file.data[..file.position]
      decreases remaining
    {
      var limit := Min(remaining, READ_BUFFER_BYTES);
      var read := ReadAtMost(file, buffer, limit);
      if read == 0 {
        ClosedOnChunk(chunks.given, chunks.emitted, chunks.pending, []);
        CutShortAt(chunks.given + [], chunks.emitted, []);
        assert chunks.given + [] + [] == file.data;
        return SourceTruncated, chunks.emitted;
      }
      ghost var sent := chunks.given;
      var ok := chunks.Write(buffer[..read]);
      if !ok {
        CutShortAt(sent + buffer[..read], chunks.emitted, whole[file.position..]);
        assert sent + buffer[..read] + whole[file.position..] == whole;
        return SinkClosed, chunks.emitted;
      }
      remaining := remaining - read;
    }
    var ok := chunks.Finish();
    return if ok then Streamed else SinkClosed, chunks.emitted;
  }

  /** One read of at most `limit` bytes into the front of the buffer. */
  method ReadAtMost(file: ByteSource, buffer: array<byte>, limit: nat) returns (length: nat)
    requires file.Valid() && 0 < limit <= buffer.Length
    modifies file, buffer
    ensures file.Valid() && file.position == old(file.position) + length && length <= limit
    ensures length == 0 <==> old(file.position) == |file.data|
    ensures buffer[..length] == file.data[old(file.position)..file.position]
  {
    var part := new byte[limit];
    length := file.Read(part, 0);
    forall k | 0 <= k < length {
      buffer[k] := part[k];
    }
    assert buffer[..length] == part[..length];
  }

  /** Stream the delta of the listed size of a file; what the delta writer emits is framed like any other data. */
  method StreamDelta(h: Hashes, file: seq<byte>, expectedSize: nat, signature: Signature, sinkAccepts: nat -> bool)
    returns (r: StreamResult, emitted: seq<Frame>)
    requires 0 < signature.blockSize
    ensures r == Streamed ==>
              expectedSize <= |file| && emitted == Frames(DeltaBytes(h, signature, file[..expectedSize]))
    ensures r == DeltaFailed ==> !AllEncodable(DeltaOps(h, signature, file[..Min(expectedSize, |file|)]))
    ensures r == SourceTruncated ==> |file| < expectedSize && emitted < Frames(DeltaBytes(h, signature, file))
    ensures r == SinkClosed ==>
              !sinkAccepts(|emitted|) && emitted < Frames(DeltaBytes(h, signature, file[..Min(expectedSize, |file|)]))
  {
    hide Frames, DeltaBytes, DeltaOps, AllEncodable, CutShort, Framed;
    var listed := file[..Min(expectedSize, |file|)];
    var source := new ByteSource(listed);
    var chunks := new ProtocolChunkWriter(sinkAccepts);
    var written, delta := WriteDelta(h, source, signature);
    if written.Err? {
      return DeltaFailed, chunks.emitted;
    }
    assert [] + delta == delta && delta + [] == delta;
    var ok := chunks.Write(delta);
    if !ok {
      CutShortAt(delta, chunks.emitted, []);
      return SinkClosed, chunks.emitted;
    }
    if |file| < expectedSize {
      assert listed == file;
      ClosedOnChunk(delta, chunks.emitted, chunks.pending, []);
      CutShortAt(delta, chunks.emitted, []);
      return SourceTruncated, chunks.emitted;
    }
    ok := chunks.Finish();
    return if ok then Streamed else SinkClosed, chunks.emitted;
  }
}
