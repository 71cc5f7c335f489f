/** Creating a delta: the streaming matcher over a ring buffer and the merging emitter. */
module DeltaWriter {
  import opened Bytes
  import opened ByteStreams
  import opened RollingChecksums
  import opened Signatures
  import opened DeltaFormat

  /**
   * The matcher without a ring buffer or a rolling checksum: slice the source at `position`,
   * look the fresh hashes of that slice up, and move by a block or by a byte.
   */
  function NaiveTokens(h: Hashes, signature: Signature, source: seq<byte>, position: nat): seq<Token>
    requires 0 < signature.blockSize && position <= |source|
    decreases |source| - position
  {
    var end := position + signature.blockSize;
    if end > |source| then Literals(source[position..])
    else
      match signature.Match(h, source[position..end])
      case Some(index) => [Copy(index)] + NaiveTokens(h, signature, source, end)
      case None => [Literal(source[position])] + NaiveTokens(h, signature, source, position + 1)
  }

  /** The operations of the delta for `source`, without the final checksum. */
  function DeltaOps(h: Hashes, signature: Signature, source: seq<byte>): seq<Op>
    requires 0 < signature.blockSize
  {
    Canon(NaiveTokens(h, signature, source, 0))
  }

  function DeltaBytes(h: Hashes, signature: Signature, source: seq<byte>): seq<byte>
    requires 0 < signature.blockSize
  {
    EncodeOps(DeltaOps(h, signature, source) + [OpHash(h.digest(source))])
  }

  /** `output` is the wire form of `ops`. */
  ghost predicate Serialized(ops: seq<Op>, output: seq<byte>) {
    AllEncodable(ops) && output == EncodeOps(ops)
  }

  lemma SerializeOne(ops: seq<Op>, output: seq<byte>, op: Op)
    requires Serialized(ops, output) && op.Encodable()
    ensures Serialized(ops + [op], output + op.Encode())
  {
    EncodeSnoc(ops, op);
  }

  /** A run of blocks that has not been written yet, as an operation. */
  function Pending(run: Option<(u64, u64)>): seq<Op> {
    match run
    case None => []
    case Some((start, end)) =>
      if start == end then [OpBlock(start)] else [OpRange(start, if start < end then end - start else 0)]
  }

  /** What was written and what is pending make up the canonical delta of the tokens so far. */
  ghost predicate Emitted(tokens: seq<Token>, ops: seq<Op>, run: Option<(u64, u64)>) {
    && Canon(tokens) == ops + Pending(run)
    && (run.Some? ==> run.value.0 <= run.value.1)
    && (run.None? && ops != [] ==> !ops[|ops| - 1].Copies())
  }

  lemma PushBlock(ops: seq<Op>, run: Option<(u64, u64)>, index: u64)
    requires run.Some? ==> run.value.0 <= run.value.1
    requires run.None? && ops != [] ==> !ops[|ops| - 1].Copies()
    ensures Push(ops + Pending(run), Copy(index)) ==
            if run.Some? && run.value.1 + 1 == index then ops + Pending(Some((run.value.0, index)))
            else ops + Pending(run) + [OpBlock(index)]
  {}

  lemma EmitBlock(tokens: seq<Token>, ops: seq<Op>, run: Option<(u64, u64)>, index: u64)
    requires Emitted(tokens, ops, run)
    ensures run.Some? && run.value.1 + 1 == index ==> Emitted(tokens + [Copy(index)], ops, Some((run.value.0, index)))
    ensures !(run.Some? && run.value.1 + 1 == index) ==>
              Emitted(tokens + [Copy(index)], ops + Pending(run), Some((index, index)))
    ensures Aligned(Canon(tokens + [Copy(index)]))
  {
    hide Canon, Push;
    CanonSnoc(tokens, Copy(index));
    PushBlock(ops, run, index);
  }

  lemma EmitLiterals(tokens: seq<Token>, ops: seq<Op>, run: Option<(u64, u64)>, data: seq<byte>)
    requires Emitted(tokens, ops, run) && Aligned(Canon(tokens)) && data != []
    ensures Emitted(tokens + Literals(data), ops + Pending(run) + Chunks(data), None)
  {
    hide Canon, Literals, Chunks, Aligned, Pending;
    CanonLiterals(tokens, data);
    ChunksEndInData(data);
    NothingPending();
    var written := ops + Pending(run);
    assert written + Chunks(data) + [] == written + Chunks(data);
    LastOf(written, Chunks(data));
  }

  lemma NothingPending()
    ensures Pending(None) == []
  {}

  lemma LastOf<T>(s: seq<T>, more: seq<T>)
    requires more != []
    ensures s + more != [] && (s + more)[|s + more| - 1] == more[|more| - 1]
  {}

  lemma {:induction false} ChunksEndInData(data: seq<byte>)
    requires data != []
    ensures Chunks(data) != [] && Chunks(data)[|Chunks(data)| - 1].OpData?
  {
    if |data| > MAX_LITERAL_BYTES {
      ChunksEndInData(data[MAX_LITERAL_BYTES..]);
    }
  }

  lemma NextChunk(data: seq<byte>, start: nat, end: nat)
    requires start < |data| && end == Min(start + MAX_LITERAL_BYTES, |data|)
    ensures Chunks(data[start..]) == [OpData(data[start..end])] + Chunks(data[end..])
  {
    var rest := data[start..];
    assert Chunks([]) == [];
    if |rest| <= MAX_LITERAL_BYTES {
      assert data[end..] == [] && rest == data[start..end];
    } else {
      assert rest[..MAX_LITERAL_BYTES] == data[start..end] && rest[MAX_LITERAL_BYTES..] == data[end..];
    }
  }

  lemma PartUnencodable(ops: seq<Op>, more: seq<Op>)
    ensures AllEncodable(ops + more) <==> AllEncodable(ops) && AllEncodable(more)
  {
    var all := ops + more;
    assert forall k :: 0 <= k < |ops| ==> all[k] == ops[k];
    assert forall k :: 0 <= k < |more| ==> all[|ops| + k] == more[k];
  }

  class DeltaEmitter {
    var output: seq<byte>
    var bytesWritten: nat
    var pendingBlocks: Option<(u64, u64)>

    /** The operations in `output`, and the tokens the emitter has been given. */
    ghost var ops: seq<Op>
    ghost var tokens: seq<Token>

    ghost predicate Consistent()
      reads this
    {
      && Serialized(ops, output) && bytesWritten == |output|
      && (pendingBlocks.Some? ==> pendingBlocks.value.0 <= pendingBlocks.value.1)
    }

    ghost predicate Valid()
      reads this
    {
      Consistent() && Emitted(tokens, ops, pendingBlocks)
    }

    constructor ()
      ensures Valid() && tokens == []
    {
      output, bytesWritten, pendingBlocks := [], 0, None;
      ops, tokens := [], [];
    }

    method WriteAll(data: seq<byte>)
      modifies this`output, this`bytesWritten
      ensures output == old(output) + data && bytesWritten == old(bytesWritten) + |data|
    {
      output := output + data;
      bytesWritten := bytesWritten + |data|;
    }

    method FlushBlocks() returns (ok: bool)
      requires Consistent()
      modifies this
      ensures tokens == old(tokens) && pendingBlocks.None?
      ensures ok <==> AllEncodable(Pending(old(pendingBlocks)))
      ensures ok ==> Consistent() && ops == old(ops) + Pending(old(pendingBlocks))
      ensures old(pendingBlocks).None? ==> output == old(output)
    {
      hide Serialized;
      if pendingBlocks.None? {
        return true;
      }
      var (start, end) := pendingBlocks.value;
      pendingBlocks := None;
      if start == end {
        SerializeOne(ops, output, OpBlock(start));
        WriteAll([OP_BLOCK]);
        WriteAll(Le64(start));
        assert output == old(output) + OpBlock(start).Encode();
        ops := ops + [OpBlock(start)];
      } else {
        var additional := end - start;
        if additional >= U32_LIMIT {
          assert !Pending(old(pendingBlocks))[0].Encodable();
          return false;
        }
        SerializeOne(ops, output, OpRange(start, additional));
        WriteAll([OP_BLOCK_RANGE]);
        WriteAll(Le64(start));
        WriteAll(Le32(additional));
        assert output == old(output) + OpRange(start, additional).Encode();
        ops := ops + [OpRange(start, additional)];
      }
      return true;
    }

    method Block(index: u64) returns (ok: bool)
      requires Valid()
      modifies this
      ensures ok ==> Valid() && tokens == old(tokens) + [Copy(index)] && Aligned(Canon(tokens))
      ensures !ok ==> !AllEncodable(Canon(old(tokens)))
    {
      hide Serialized, Pending, AllEncodable, Canon, Aligned;
      PartUnencodable(ops, Pending(pendingBlocks));
      EmitBlock(tokens, ops, pendingBlocks, index);
      if pendingBlocks.Some? && pendingBlocks.value.1 + 1 == index {
        pendingBlocks := Some((pendingBlocks.value.0, index));
      } else {
        ok := FlushBlocks();
        if !ok {
          return;
        }
        pendingBlocks := Some((index, index));
      }
      tokens := tokens + [Copy(index)];
      return true;
    }

    method WriteChunk(chunk: seq<byte>)
      requires Consistent() && pendingBlocks.None? && |chunk| <= MAX_LITERAL_BYTES
      modifies this
      ensures Consistent() && pendingBlocks.None? && tokens == old(tokens)
      ensures ops == old(ops) + [OpData(chunk)]
    {
      hide Serialized;
      SerializeOne(ops, output, OpData(chunk));
      WriteAll([OP_DATA]);
      WriteAll(Le32(|chunk|));
      WriteAll(chunk);
      assert output == old(output) + OpData(chunk).Encode();
      ops := ops + [OpData(chunk)];
    }

    /** The literal in pieces of at most 64 KiB. */
    method WriteChunks(data: seq<byte>)
      requires Consistent() && pendingBlocks.None?
      modifies this
      ensures Consistent() && pendingBlocks.None? && tokens == old(tokens)
      ensures ops == old(ops) + Chunks(data)
    {
      hide Consistent, Chunks;
      var start := 0;
      assert data[0..] == data;
      while start < |data|
        invariant 0 <= start <= |data| && pendingBlocks.None? && Consistent() && tokens == old(tokens)
        invariant ops + Chunks(data[start..]) == old(ops) + Chunks(data)
      {
        var end := Min(start + MAX_LITERAL_BYTES, |data|);
        NextChunk(data, start, end);
        WriteChunk(data[start..end]);
        assert old(ops) + Chunks(data) == ops + Chunks(data[end..]);
        start := end;
      }
      NoChunks();
      assert data[|data|..] == [] && ops + [] == ops;
    }

    method Data(data: seq<byte>) returns (ok: bool)
      requires Valid() && Aligned(Canon(tokens))
      modifies this
      ensures ok ==> Valid() && tokens == old(tokens) + Literals(data)
      ensures !ok ==> !AllEncodable(Canon(old(tokens)))
    {
      hide Serialized, Pending, AllEncodable, Canon, Chunks, Literals, Aligned;
      if data == [] {
        NoLiterals();
        return true;
      }
      PartUnencodable(ops, Pending(pendingBlocks));
      EmitLiterals(tokens, ops, pendingBlocks, data);
      ok := FlushBlocks();
      if ok {
        WriteChunks(data);
        tokens := tokens + Literals(data);
      }
    }

    method Hash(checksum: OutputHash) returns (ok: bool)
      requires Valid()
      modifies this
      ensures ok <==> AllEncodable(Canon(old(tokens)))
      ensures ok ==> Consistent() && pendingBlocks.None?
      ensures ok ==> ops == Canon(old(tokens)) + [OpHash(checksum)]
    {
      PartUnencodable(ops, Pending(pendingBlocks));
      assert AllEncodable(ops);
      hide Serialized, Pending, AllEncodable, Canon;
      ok := FlushBlocks();
      if ok {
        WriteHash(checksum);
      }
    }

    method WriteHash(checksum: OutputHash)
      requires Consistent() && pendingBlocks.None?
      modifies this
      ensures Consistent() && pendingBlocks.None?
      ensures ops == old(ops) + [OpHash(checksum)]
    {
      hide Serialized;
      SerializeOne(ops, output, OpHash(checksum));
      WriteAll([OP_HASH]);
      WriteAll(Le16(OUTPUT_HASH_BYTES));
      WriteAll(checksum);
      assert output == old(output) + OpHash(checksum).Encode();
      ops := ops + [OpHash(checksum)];
    }

    method Finish() returns (ok: bool, written: nat)
      requires Consistent()
      modifies this
      ensures old(pendingBlocks).None? ==> ok && output == old(output) && written == |output|
    {
      ok := FlushBlocks();
      written := bytesWritten;
    }
  }

  lemma NoChunks()
    ensures Chunks([]) == []
  {}

  lemma NoLiterals()
    ensures Literals([]) == []
  {}

  /** The ring, read from `head` and wrapping round, is window `w`. */
  ghost predicate RingHolds(ring: array<byte>, head: nat, w: seq<byte>)
    reads ring
  {
    head < ring.Length && w == ring[head..] + ring[..head]
  }

  /** Look the ring's window up, through a contiguous copy unless the ring starts at zero. */
  method FindInRing(h: Hashes, signature: Signature, ring: array<byte>, head: nat, contiguous: array<byte>, weak: u32,
                    ghost w: seq<byte>)
    returns (candidate: Option<u64>)
    requires RingHolds(ring, head, w) && contiguous.Length == ring.Length && contiguous != ring
    modifies contiguous
    ensures candidate == signature.Find(h, weak, w)
  {
    if head == 0 {
      assert ring[..] == w;
      return signature.Find(h, weak, ring[..]);
    }
    var split := ring.Length - head;
    forall k | 0 <= k < split {
      contiguous[k] := ring[head + k];
    }
    forall k | 0 <= k < head {
      contiguous[split + k] := ring[k];
    }
    assert contiguous[..] == w;
    return signature.Find(h, weak, contiguous[..]);
  }

  lemma NextHead(head: nat, length: nat)
    requires head < length
    ensures (head + 1) % length == if head + 1 < length then head + 1 else 0
  {}

  /** Replacing the oldest byte and moving the head is a slide of the window. */
  lemma Rotated(ring: seq<byte>, head: nat, incoming: byte)
    requires head < |ring|
    ensures var next := if head + 1 < |ring| then head + 1 else 0;
            ring[head := incoming][next..] + ring[head := incoming][..next]
              == (ring[head..] + ring[..head])[1..] + [incoming]
  {}

  /** Overwrite the oldest byte of the ring with the incoming one. */
  method Rotate(ring: array<byte>, head: nat, incoming: byte, ghost w: seq<byte>) returns (next: nat)
    requires RingHolds(ring, head, w)
    modifies ring
    ensures RingHolds(ring, next, w[1..] + [incoming])
  {
    NextHead(head, ring.Length);
    Rotated(ring[..], head, incoming);
    assert ring[..][head..] == ring[head..] && ring[..][..head] == ring[..head];
    ring[head] := incoming;
    assert ring[..] == old(ring[..])[head := incoming];
    next := (head + 1) % ring.Length;
    assert ring[..][next..] == ring[next..] && ring[..][..next] == ring[..next];
  }

  /** Everything decided so far: the tokens of the source before `position`, some of them still in `literal`. */
  ghost predicate Decided(h: Hashes, signature: Signature, source: seq<byte>, position: nat,
                          tokens: seq<Token>, literal: seq<byte>)
  {
    && 0 < signature.blockSize && position <= |source|
    && NaiveTokens(h, signature, source, 0)
       == tokens + Literals(literal) + NaiveTokens(h, signature, source, position)
  }

  /** Nothing is left to decide. */
  ghost predicate DecidedAll(h: Hashes, signature: Signature, source: seq<byte>, tokens: seq<Token>,
                             literal: seq<byte>) {
    0 < signature.blockSize && NaiveTokens(h, signature, source, 0) == tokens + Literals(literal)
  }

  lemma Append3<T>(a: seq<T>, b: seq<T>, c: seq<T>)
    ensures a + (b + c) == a + b + c
  {}

  lemma DecidedFlush(h: Hashes, signature: Signature, source: seq<byte>, position: nat, tokens: seq<Token>,
                     literal: seq<byte>)
    requires Decided(h, signature, source, position, tokens, literal)
    ensures Decided(h, signature, source, position, tokens + Literals(literal), [])
  {}

  lemma DecidedMatch(h: Hashes, signature: Signature, source: seq<byte>, position: nat, tokens: seq<Token>, index: u64)
    requires Decided(h, signature, source, position, tokens, []) && position + signature.blockSize <= |source|
    requires signature.Match(h, source[position..position + signature.blockSize]) == Some(index)
    ensures Decided(h, signature, source, position + signature.blockSize, tokens + [Copy(index)], [])
  {}

  lemma DecidedMiss(h: Hashes, signature: Signature, source: seq<byte>, position: nat, tokens: seq<Token>,
                    literal: seq<byte>)
    requires Decided(h, signature, source, position, tokens, literal) && position + signature.blockSize <= |source|
    requires signature.Match(h, source[position..position + signature.blockSize]) == None
    ensures Decided(h, signature, source, position + 1, tokens, literal + [source[position]])
  {
    var b := source[position];
    var rest := NaiveTokens(h, signature, source, position + 1);
    assert NaiveTokens(h, signature, source, position) == [Literal(b)] + rest;
    LiteralsAppend(literal, [b]);
    assert Literals([b]) == [Literal(b)];
    hide NaiveTokens, Literals;
    Append3(tokens, Literals(literal), [Literal(b)]);
    Append3(tokens + Literals(literal), [Literal(b)], rest);
  }

  lemma DecidedTail(h: Hashes, signature: Signature, source: seq<byte>, position: nat, tokens: seq<Token>,
                    literal: seq<byte>)
    requires Decided(h, signature, source, position, tokens, literal) && position + signature.blockSize > |source|
    ensures DecidedAll(h, signature, source, tokens, literal + source[position..])
  {}

  /** The last full window did not match, and the source ends with it. */
  lemma DecidedLastMiss(h: Hashes, signature: Signature, source: seq<byte>, position: nat, tokens: seq<Token>,
                        literal: seq<byte>)
    requires Decided(h, signature, source, position, tokens, literal) && position + signature.blockSize == |source|
    requires signature.Match(h, source[position..]) == None
    ensures DecidedAll(h, signature, source, tokens, literal + source[position..])
  {
    assert source[position..position + signature.blockSize] == source[position..];
    hide NaiveTokens, Literals, Signature.Match;
    DecidedMiss(h, signature, source, position, tokens, literal);
    DecidedTail(h, signature, source, position + 1, tokens, literal + [source[position]]);
    assert literal + [source[position]] + source[position + 1..] == literal + source[position..];
  }

  lemma DecidedUnencodable(h: Hashes, signature: Signature, source: seq<byte>, position: nat, tokens: seq<Token>,
                           literal: seq<byte>)
    requires Decided(h, signature, source, position, tokens, literal) && !AllEncodable(Canon(tokens))
    ensures !AllEncodable(DeltaOps(h, signature, source))
  {
    hide AllEncodable, Canon, Literals, NaiveTokens;
    var rest := NaiveTokens(h, signature, source, position);
    Append3(tokens, Literals(literal), rest);
    UnencodableStays(tokens, Literals(literal) + rest);
  }

  /** Send the pending literal, then the matched block. */
  method TakeBlock(emitter: DeltaEmitter, literal: seq<byte>, index: u64) returns (ok: bool)
    requires emitter.Valid() && Aligned(Canon(emitter.tokens))
    modifies emitter
    ensures ok ==> emitter.Valid() && Aligned(Canon(emitter.tokens))
    ensures ok ==> emitter.tokens == old(emitter.tokens) + Literals(literal) + [Copy(index)]
    ensures !ok ==> !AllEncodable(Canon(old(emitter.tokens) + Literals(literal)))
  {
    hide AllEncodable, Canon, Literals, Aligned, Serialized, Emitted;
    ok := emitter.Data(literal);
    if !ok {
      UnencodableStays(old(emitter.tokens), Literals(literal));
      return;
    }
    ok := emitter.Block(index);
  }

  lemma StaysAligned(tokens: seq<Token>, literal: seq<byte>)
    requires Aligned(Canon(tokens)) && (literal == [] || |literal| == MAX_LITERAL_BYTES)
    ensures Aligned(Canon(tokens + Literals(literal)))
  {
    hide Canon, Literals;
    CanonLiterals(tokens, literal);
    if literal == [] {
      assert Canon(tokens) + [] == Canon(tokens);
    }
  }

  /** Send the literal once it has grown to 64 KiB. */
  method FlushLongLiteral(emitter: DeltaEmitter, literal: seq<byte>) returns (ok: bool, rest: seq<byte>)
    requires emitter.Valid() && Aligned(Canon(emitter.tokens)) && |literal| <= MAX_LITERAL_BYTES
    modifies emitter
    ensures ok ==> emitter.Valid() && Aligned(Canon(emitter.tokens)) && |rest| < MAX_LITERAL_BYTES
    ensures ok ==> emitter.tokens + Literals(rest) == old(emitter.tokens) + Literals(literal)
    ensures !ok ==> !AllEncodable(Canon(old(emitter.tokens)))
  {
    hide AllEncodable, Canon, Literals, Aligned, Serialized, Emitted;
    ok, rest := true, literal;
    if |literal| >= MAX_LITERAL_BYTES {
      StaysAligned(emitter.tokens, literal);
      ok := emitter.Data(literal);
      rest := [];
      NoLiterals();
      assert old(emitter.tokens) + Literals(literal) + [] == old(emitter.tokens) + Literals(literal);
    }
  }

  /** The state of the scan: a full window at `position`, its sums, and the bytes hashed so far. */
  ghost predicate Scanning(source: ByteSource, window: array<byte>, head: nat, weak: RollingChecksum, hashed: seq<byte>)
    reads source, window, weak
  {
    && source.Valid() && window.Length <= source.position
    && hashed == source.data[..source.position]
    && RingHolds(window, head, source.data[source.position - window.Length..source.position])
    && weak.Summarizes(source.data[source.position - window.Length..source.position])
  }

  /** Read the next byte, drop the oldest one from the window and from its sums. */
  method SlideOne(source: ByteSource, window: array<byte>, head: nat, weak: RollingChecksum, hashed: seq<byte>)
    returns (more: bool, outgoing: byte, nextHead: nat, nextHashed: seq<byte>)
    requires Scanning(source, window, head, weak, hashed)
    modifies source, window, weak
    ensures more <==> old(source.position) < |source.data|
    ensures !more ==> unchanged(window) && source.position == old(source.position) && source.Valid()
    ensures !more ==> nextHashed == hashed
    ensures more ==> Scanning(source, window, nextHead, weak, nextHashed)
    ensures more ==> source.position == old(source.position) + 1
    ensures more ==> outgoing == source.data[old(source.position) - window.Length]
  {
    ghost var w := source.data[source.position - window.Length..source.position];
    ghost var position := source.position;
    var incoming := new byte[1];
    var count := ReadUpTo(source, incoming);
    outgoing, nextHead, nextHashed := window[head], head, hashed;
    if count == 0 {
      return false, outgoing, nextHead, nextHashed;
    }
    assert incoming[..1] == [source.data[position]];
    nextHashed := hashed + incoming[..1];
    assert w[0] == outgoing;
    assert w[1..] + [incoming[0]] == source.data[source.position - window.Length..source.position];
    nextHead := Rotate(window, head, incoming[0], w);
    weak.Roll(outgoing, incoming[0], w);
    more := true;
  }

  /** Start a scan over the window that was just read. */
  method StartWindow(source: ByteSource, window: array<byte>, ghost hashed: seq<byte>) returns (weak: RollingChecksum)
    requires source.Valid() && 0 < window.Length <= source.position
    requires window[..] == source.data[source.position - window.Length..source.position]
    requires hashed == source.data[..source.position]
    ensures fresh(weak) && Scanning(source, window, 0, weak, hashed)
  {
    weak := new RollingChecksum(window[..]);
    assert window[0..] + window[..0] == window[..];
  }

  lemma DecidedSame(h: Hashes, signature: Signature, source: seq<byte>, position: nat,
                    tokens: seq<Token>, literal: seq<byte>, tokens': seq<Token>, literal': seq<byte>)
    requires Decided(h, signature, source, position, tokens, literal)
    requires tokens + Literals(literal) == tokens' + Literals(literal')
    ensures Decided(h, signature, source, position, tokens', literal')
  {}

  /** The emitter has been given everything decided before `position` except `literal`. */
  ghost predicate Emitting(h: Hashes, signature: Signature, source: seq<byte>, position: int, emitter: DeltaEmitter,
                           literal: seq<byte>)
    reads emitter
  {
    && emitter.Valid() && Aligned(Canon(emitter.tokens)) && 0 <= position
    && Decided(h, signature, source, position, emitter.tokens, literal)
  }

  /** The whole source has been scanned; only `literal` is left to send. */
  ghost predicate Finished(h: Hashes, signature: Signature, source: seq<byte>, emitter: DeltaEmitter,
                           literal: seq<byte>)
    reads emitter
  {
    && emitter.Valid() && Aligned(Canon(emitter.tokens))
    && DecidedAll(h, signature, source, emitter.tokens, literal)
  }

  /** Send the window at `position`, which matched. */
  method SendMatch(h: Hashes, signature: Signature, ghost data: seq<byte>, ghost position: nat, emitter: DeltaEmitter,
                   literal: seq<byte>, index: u64)
    returns (ok: bool)
    requires position + signature.blockSize <= |data|
    requires Emitting(h, signature, data, position, emitter, literal)
    requires signature.Match(h, data[position..position + signature.blockSize]) == Some(index)
    modifies emitter
    ensures !ok ==> !AllEncodable(DeltaOps(h, signature, data))
    ensures ok ==> Emitting(h, signature, data, position + signature.blockSize, emitter, [])
  {
    hide NaiveTokens, Literals, Canon, Aligned, AllEncodable, Serialized, Emitted, Decided, DeltaOps, Signature.Match;
    DecidedFlush(h, signature, data, position, emitter.tokens, literal);
    ghost var tokens := emitter.tokens + Literals(literal);
    ok := TakeBlock(emitter, literal, index);
    if ok {
      DecidedMatch(h, signature, data, position, tokens, index);
    } else {
      DecidedUnencodable(h, signature, data, position, tokens, []);
    }
  }

  /** The window matched: send it, and read the next window in its place. */
  method AfterMatch(h: Hashes, signature: Signature, source: ByteSource, window: array<byte>, emitter: DeltaEmitter,
                    literal: seq<byte>, index: u64, hashed: seq<byte>)
    returns (ok: bool, more: bool, rest: seq<byte>, nextHashed: seq<byte>)
    requires source.Valid() && window.Length == signature.blockSize <= source.position
    requires hashed == source.data[..source.position]
    requires Emitting(h, signature, source.data, source.position - window.Length, emitter, literal)
    requires signature.Match(h, source.data[source.position - window.Length..source.position]) == Some(index)
    modifies source, window, emitter
    ensures !ok ==> !AllEncodable(DeltaOps(h, signature, source.data))
    ensures ok && !more ==> Finished(h, signature, source.data, emitter, rest) && nextHashed == source.data
    ensures ok && more ==> source.Valid() && source.position == old(source.position) + window.Length && rest == []
    ensures ok && more ==> window[..] == source.data[old(source.position)..source.position]
    ensures ok && more ==> nextHashed == source.data[..source.position]
    ensures ok && more ==> Emitting(h, signature, source.data, source.position - window.Length, emitter, rest)
  {
    hide NaiveTokens, Literals, Canon, Aligned, AllEncodable, DeltaOps, Signature.Match;
    hide DeltaEmitter.Valid, Decided, DecidedAll;
    more, rest, nextHashed := true, [], hashed;
    ok := SendMatch(h, signature, source.data, source.position - window.Length, emitter, literal, index);
    if !ok {
      return;
    }
    ghost var position := source.position;
    var windowLen := ReadUpTo(source, window);
    nextHashed := hashed + window[..windowLen];
    if windowLen < signature.blockSize {
      more, rest := false, window[..windowLen];
      assert [] + source.data[position..] == rest;
      DecidedTail(h, signature, source.data, position, emitter.tokens, []);
    } else {
      assert window[..] == window[..windowLen];
    }
  }

  /** The window at `position` did not match: move one byte on, if there is one. */
  method AfterMiss(h: Hashes, signature: Signature, source: ByteSource, window: array<byte>, head: nat,
                   weak: RollingChecksum,
                   emitter: DeltaEmitter, literal: seq<byte>, hashed: seq<byte>)
    returns (ok: bool, more: bool, rest: seq<byte>, nextHead: nat, nextHashed: seq<byte>)
    requires Scanning(source, window, head, weak, hashed) && window.Length == signature.blockSize
    requires |literal| < MAX_LITERAL_BYTES
    requires Emitting(h, signature, source.data, source.position - window.Length, emitter, literal)
    requires signature.Match(h, source.data[source.position - window.Length..source.position]) == None
    modifies source, window, weak, emitter
    ensures !ok ==> !AllEncodable(DeltaOps(h, signature, source.data))
    ensures ok ==> more == (old(source.position) < |source.data|)
    ensures ok && !more ==> Finished(h, signature, source.data, emitter, rest) && nextHashed == source.data
    ensures ok && more ==> Scanning(source, window, nextHead, weak, nextHashed)
    ensures ok && more ==> source.position == old(source.position) + 1 && |rest| < MAX_LITERAL_BYTES
    ensures ok && more ==> Emitting(h, signature, source.data, source.position - window.Length, emitter, rest)
  {
    hide NaiveTokens, Literals, Canon, Aligned, AllEncodable, Serialized, Emitted, Decided, DecidedAll, DeltaOps;
    hide Signature.Match;
    hide RollingChecksum.Summarizes;
    ghost var position := source.position - window.Length;
    ghost var data := source.data;
    ok, rest := true, literal;
    ghost var w := window[head..] + window[..head];
    assert w == data[position..source.position];
    var outgoing;
    more, outgoing, nextHead, nextHashed := SlideOne(source, window, head, weak, hashed);
    if !more {
      assert data[position..source.position] == data[position..];
      DecidedLastMiss(h, signature, data, position, emitter.tokens, literal);
      rest := literal + (window[head..] + window[..head]);
      assert rest == literal + w;
      return;
    }
    DecidedMiss(h, signature, data, position, emitter.tokens, literal);
    ghost var tokens := emitter.tokens;
    ok, rest := FlushLongLiteral(emitter, literal + [outgoing]);
    if ok {
      DecidedSame(h, signature, data, position + 1, tokens, literal + [outgoing], emitter.tokens, rest);
    } else {
      DecidedUnencodable(h, signature, data, position + 1, tokens, literal + [outgoing]);
    }
  }

  lemma EmptyIsAligned()
    ensures Aligned(Canon([]))
  {}

  lemma SummaryDigest(weak: RollingChecksum, w: seq<byte>)
    requires weak.Summarizes(w)
    ensures weak.Digest() == Checksum(w)
  {}

  lemma StartEmitting(h: Hashes, signature: Signature, source: seq<byte>, emitter: DeltaEmitter)
    requires 0 < signature.blockSize && emitter.Valid() && emitter.tokens == []
    ensures Emitting(h, signature, source, 0, emitter, [])
  {}

  /** Look up the window that the ring and the rolled checksum stand for. */
  method LookUp(h: Hashes, signature: Signature, source: ByteSource, window: array<byte>, head: nat,
                weak: RollingChecksum,
                contiguous: array<byte>, ghost hashed: seq<byte>)
    returns (candidate: Option<u64>)
    requires Scanning(source, window, head, weak, hashed) && contiguous.Length == window.Length && contiguous != window
    modifies contiguous
    ensures candidate == signature.Match(h, source.data[source.position - window.Length..source.position])
  {
    hide RollingChecksum.Summarizes, RingHolds;
    ghost var w := source.data[source.position - window.Length..source.position];
    candidate := FindInRing(h, signature, window, head, contiguous, weak.Digest(), w);
    SummaryDigest(weak, w);
  }

  /** Scan the whole source from its first full window. */
  method Scan(h: Hashes, signature: Signature, source: ByteSource, window: array<byte>, emitter: DeltaEmitter,
              prefix: seq<byte>)
    returns (ok: bool, literal: seq<byte>, hashed: seq<byte>)
    requires source.Valid() && 0 < window.Length == signature.blockSize == source.position
    requires window[..] == prefix == source.data[..source.position]
    requires emitter.Valid() && emitter.tokens == []
    modifies source, window, emitter
    ensures !ok ==> !AllEncodable(DeltaOps(h, signature, source.data))
    ensures ok ==> Finished(h, signature, source.data, emitter, literal) && hashed == source.data
  {
    hide AllEncodable, DeltaOps, DeltaEmitter.Valid, Emitting, Finished, Signature.Match;
    hide RollingChecksum.Summarizes, RingHolds;
    var head := 0;
    ok, literal, hashed := true, [], prefix;
    StartEmitting(h, signature, source.data, emitter);
    var weak := StartWindow(source, window, hashed);
    var contiguous := new byte[signature.blockSize];
    while true
      invariant Scanning(source, window, head, weak, hashed) && fresh(weak)
      invariant Emitting(h, signature, source.data, source.position - window.Length, emitter, literal)
      invariant |literal| < MAX_LITERAL_BYTES
      decreases |source.data| - source.position
    {
      var candidate := LookUp(h, signature, source, window, head, weak, contiguous, hashed);
      var more;
      if candidate.Some? {
        ok, more, literal, hashed := AfterMatch(h, signature, source, window, emitter, literal, candidate.value,
                                                hashed);
        if !ok || !more {
          return;
        }
        head := 0;
        weak := StartWindow(source, window, hashed);
      } else {
        ok, more, literal, head, hashed := AfterMiss(h, signature, source, window, head, weak, emitter, literal,
                                                     hashed);
        if !ok || !more {
          return;
        }
      }
    }
  }

  lemma NothingDecided(h: Hashes, signature: Signature, source: seq<byte>)
    requires 0 < signature.blockSize && |source| < signature.blockSize
    ensures DecidedAll(h, signature, source, [], source)
  {}

  /** Send what is left, then the checksum. */
  method CloseDelta(h: Hashes, signature: Signature, source: seq<byte>, emitter: DeltaEmitter, literal: seq<byte>,
                    hashed: seq<byte>)
    returns (r: Result<nat, IoError>)
    requires Finished(h, signature, source, emitter, literal) && hashed == source
    modifies emitter
    ensures r.Ok? <==> AllEncodable(DeltaOps(h, signature, source))
    ensures r.Err? ==> r.error == InvalidData
    ensures r.Ok? ==> emitter.output == DeltaBytes(h, signature, source) && r.value == |emitter.output|
  {
    hide NaiveTokens, Literals, Canon, Aligned, AllEncodable, Emitted;
    ghost var tokens := emitter.tokens;
    var ok := emitter.Data(literal);
    if !ok {
      UnencodableStays(tokens, Literals(literal));
      return Err(InvalidData);
    }
    ok := emitter.Hash(h.digest(hashed));
    if !ok {
      return Err(InvalidData);
    }
    var written;
    ok, written := emitter.Finish();
    return Ok(written);
  }

  /**
   * Create the delta of a source against a signature. It succeeds exactly when every merged block
   * run has a 32-bit length, and then writes the canonical delta of the naive match.
   */
  method WriteDelta(h: Hashes, source: ByteSource, signature: Signature)
    returns (r: Result<nat, IoError>, output: seq<byte>)
    requires source.Valid() && source.position == 0 && 0 < signature.blockSize
    modifies source
    ensures r.Ok? <==> AllEncodable(DeltaOps(h, signature, source.data))
    ensures r.Err? ==> r.error == InvalidData
    ensures r.Ok? ==> output == DeltaBytes(h, signature, source.data) && r.value == |output|
  {
    hide NaiveTokens, Literals, AllEncodable, DeltaOps, DeltaBytes, DecidedAll;
    EmptyIsAligned();
    hide Canon, Aligned;
    var emitter := new DeltaEmitter();
    var window := new byte[signature.blockSize];
    var windowLen := ReadUpTo(source, window);
    var hashed := window[..windowLen];
    var literal := hashed;
    if windowLen == signature.blockSize {
      var ok;
      ok, literal, hashed := Scan(h, signature, source, window, emitter, hashed);
      if !ok {
        return Err(InvalidData), emitter.output;
      }
    } else {
      assert hashed == source.data;
      NothingDecided(h, signature, source.data);
      assert Aligned(Canon(emitter.tokens));
    }
    r := CloseDelta(h, signature, source.data, emitter, literal, hashed);
    output := emitter.output;
  }
}
