/** The delta of a source against an honest signature of a base rebuilds the source from the base. */
module DeltaRoundTrip {
  import opened Bytes
  import opened ByteStreams
  import opened RollingChecksums
  import opened Signatures
  import opened DeltaFormat
  import opened DeltaWriter
  import opened DeltaPatcher
  import opened DeltaMeaning

  predicate IsBlock(data: seq<byte>, size: nat, k: nat) {
    0 < size && k * size < |data|
  }

  predicate IsWindow(data: seq<byte>, size: nat, p: nat) {
    p + size <= |data|
  }

  /** The two hashes together tell these byte strings apart. */
  predicate Distinguishes(h: Hashes, block: seq<byte>, window: seq<byte>) {
    h.strong(block) == h.strong(window) && Checksum(block) == Checksum(window) ==> block == window
  }

  /** No window of the source collides with a different block of the base. */
  ghost predicate CollisionFree(h: Hashes, base: seq<byte>, size: nat, source: seq<byte>) {
    forall k: nat, p: nat :: IsBlock(base, size, k) && IsWindow(source, size, p) ==>
      Distinguishes(h, Block(base, size, k), source[p..p + size])
  }

  predicate BlockIs(data: seq<byte>, size: nat, k: nat, window: seq<byte>) {
    IsBlock(data, size, k) && Block(data, size, k) == window
  }

  /** Block `k` exists and is not the short one at the end. */
  predicate FullBlock(c: Config, k: nat) {
    (k + 1) * c.blockSize <= |c.base|
  }

  lemma BlockSize(c: Config, k: nat, window: seq<byte>)
    requires BlockIs(c.base, c.blockSize, k, window) && |window| == c.blockSize
    ensures FullBlock(c, k)
  {}

  lemma RecordMatches(h: Hashes, base: seq<byte>, size: nat, source: seq<byte>, p: nat, k: nat)
    requires CollisionFree(h, base, size, source) && IsWindow(source, size, p)
    requires 0 < size && |base| < U64_LIMIT && k < CeilDiv(|base|, size)
    ensures var record, window := AllRecords(h, base, size)[k], source[p..p + size];
            record.index == k
            && ((record.weak == Checksum(window) && record.strong == h.strong(window))
                <==> BlockIs(base, size, k, window))
  {
    hide Checksum;
    BlockCount(|base|, size);
    assert k * size < |base|;
    HonestRecordAt(h, base, size, CeilDiv(|base|, size), k);
    assert Distinguishes(h, Block(base, size, k), source[p..p + size]);
  }

  /** With an honest signature, a match names the first base block that equals the window. */
  lemma MatchIsLeast(c: Config, signature: Signature, source: seq<byte>, p: nat)
    requires c.Valid() && signature.blockSize == c.blockSize && signature.Honest(c.h, c.base)
    requires CollisionFree(c.h, c.base, c.blockSize, source) && IsWindow(source, c.blockSize, p)
    ensures var window := source[p..p + c.blockSize];
            match signature.Match(c.h, window)
            case Some(k) =>
              && FullBlock(c, k) && BlockIs(c.base, c.blockSize, k, window)
              && forall j: nat :: j < k ==> !BlockIs(c.base, c.blockSize, j, window)
            case None => forall j: nat :: !BlockIs(c.base, c.blockSize, j, window)
  {
    hide Checksum, FirstIndex, CollisionFree, BlockIs, FullBlock, HonestRecords;
    var count, window := CeilDiv(|c.base|, c.blockSize), source[p..p + c.blockSize];
    var first := FirstIndexIsLeast(AllRecords(c.h, c.base, c.blockSize), Checksum(window), c.h.strong(window));
    forall j: nat
      ensures BlockIs(c.base, c.blockSize, j, window) ==> j < count
      ensures j < first ==> !BlockIs(c.base, c.blockSize, j, window)
    {
      if BlockIs(c.base, c.blockSize, j, window) {
        BlockExists(c.base, c.blockSize, j, window);
      }
      if j < first {
        RecordMatches(c.h, c.base, c.blockSize, source, p, j);
      }
    }
    if first < count {
      RecordMatches(c.h, c.base, c.blockSize, source, p, first);
      BlockSize(c, first, window);
    }
  }

  lemma BlockExists(data: seq<byte>, size: nat, k: nat, window: seq<byte>)
    requires 0 < size && BlockIs(data, size, k, window)
    ensures k < CeilDiv(|data|, size)
  {
    BlockCount(|data|, size);
    assert k * size < |data|;
  }

  /* ---- From tokens to bytes ---- */

  predicate GoodToken(c: Config, t: Token) {
    t.Copy? ==> FullBlock(c, t.index)
  }

  function TokenBytes(c: Config, t: Token): seq<byte>
    requires GoodToken(c, t)
  {
    if t.Literal? then [t.value] else
      BlockStart(c, t.index);
      c.base[t.index * c.blockSize..(t.index + 1) * c.blockSize]
  }

  lemma BlockStart(c: Config, k: nat)
    ensures k * c.blockSize <= (k + 1) * c.blockSize
  {}

  ghost predicate AllGood(c: Config, tokens: seq<Token>) {
    forall k :: 0 <= k < |tokens| ==> GoodToken(c, tokens[k])
  }

  /** The bytes that a token sequence rebuilds. */
  ghost function TokensBytes(c: Config, tokens: seq<Token>): seq<byte>
    requires AllGood(c, tokens)
  {
    if tokens == [] then [] else
      TokensBytes(c, tokens[..|tokens| - 1]) + TokenBytes(c, tokens[|tokens| - 1])
  }

  lemma {:induction false} TokensBytesAppend(c: Config, tokens: seq<Token>, more: seq<Token>)
    requires AllGood(c, tokens) && AllGood(c, more)
    ensures AllGood(c, tokens + more)
    ensures TokensBytes(c, tokens + more) == TokensBytes(c, tokens) + TokensBytes(c, more)
    decreases |more|
  {
    hide GoodToken, TokenBytes;
    if more == [] {
      assert tokens + more == tokens;
    } else {
      TokensBytesAppend(c, tokens, more[..|more| - 1]);
      assert (tokens + more)[..|tokens + more| - 1] == tokens + more[..|more| - 1];
    }
  }

  lemma {:induction false} LiteralsBytes(c: Config, bytes: seq<byte>)
    ensures Rebuilds(c, Literals(bytes), bytes)
    decreases |bytes|
  {
    if bytes != [] {
      var initial := bytes[..|bytes| - 1];
      LiteralsBytes(c, initial);
      assert Literals(bytes)[..|bytes| - 1] == Literals(initial);
    }
  }

  /** The tokens are good and rebuild `bytes`. */
  ghost predicate Rebuilds(c: Config, tokens: seq<Token>, bytes: seq<byte>) {
    AllGood(c, tokens) && TokensBytes(c, tokens) == bytes
  }

  lemma OneToken(c: Config, t: Token)
    requires GoodToken(c, t)
    ensures AllGood(c, [t]) && TokensBytes(c, [t]) == TokenBytes(c, t)
  {}

  /** What the naive matcher decides about the rest of a source rebuilds exactly that rest. */
  lemma {:induction false} NaiveRebuilds(c: Config, signature: Signature, source: seq<byte>, p: nat)
    requires c.Valid() && signature.blockSize == c.blockSize && signature.Honest(c.h, c.base)
    requires CollisionFree(c.h, c.base, c.blockSize, source) && p <= |source|
    ensures Rebuilds(c, NaiveTokens(c.h, signature, source, p), source[p..])
    decreases |source| - p
  {
    hide CollisionFree, Signature.Honest, Signature.Match, NaiveTokens, Rebuilds, BlockIs, FullBlock;
    NaiveUnfold(c.h, signature, source, p);
    var end := p + c.blockSize;
    if end > |source| {
      LiteralsBytes(c, source[p..]);
    } else {
      MatchIsLeast(c, signature, source, p);
      var matched := signature.Match(c.h, source[p..end]);
      if matched.Some? {
        NaiveRebuilds(c, signature, source, end);
        StepRebuilds(c, Copy(matched.value), NaiveTokens(c.h, signature, source, end), source[p..end], source[end..]);
        assert source[p..end] + source[end..] == source[p..];
      } else {
        NaiveRebuilds(c, signature, source, p + 1);
        StepRebuilds(c, Literal(source[p]), NaiveTokens(c.h, signature, source, p + 1), [source[p]], source[p + 1..]);
        assert [source[p]] + source[p + 1..] == source[p..];
      }
    }
  }

  /**
   * What the matcher decides at a position, by content alone: it copies the least block of the base that
   * the window equals, sends one byte where there is none, and sends the rest where no window fits.
   */
  lemma NaiveIsGreedy(c: Config, signature: Signature, source: seq<byte>, p: nat)
    requires c.Valid() && signature.blockSize == c.blockSize && signature.Honest(c.h, c.base)
    requires CollisionFree(c.h, c.base, c.blockSize, source) && p <= |source|
    ensures p + c.blockSize > |source| ==> NaiveTokens(c.h, signature, source, p) == Literals(source[p..])
    ensures p + c.blockSize <= |source| ==>
              var window := source[p..p + c.blockSize];
              if exists k: nat :: BlockIs(c.base, c.blockSize, k, window) then
                exists k: nat ::
                  && BlockIs(c.base, c.blockSize, k, window)
                  && (forall j: nat :: j < k ==> !BlockIs(c.base, c.blockSize, j, window))
                  && NaiveTokens(c.h, signature, source, p)
                     == [Copy(k)] + NaiveTokens(c.h, signature, source, p + c.blockSize)
              else
                NaiveTokens(c.h, signature, source, p)
                  == [Literal(source[p])] + NaiveTokens(c.h, signature, source, p + 1)
  {
    hide BlockIs, FullBlock, CollisionFree, Signature.Honest, Signature.Match, Literals, NaiveTokens;
    NaiveUnfold(c.h, signature, source, p);
    if p + c.blockSize <= |source| {
      MatchIsLeast(c, signature, source, p);
    }
  }

  lemma NaiveUnfold(h: Hashes, signature: Signature, source: seq<byte>, p: nat)
    requires 0 < signature.blockSize && p <= |source|
    ensures var end := p + signature.blockSize;
            NaiveTokens(h, signature, source, p) ==
            if end > |source| then Literals(source[p..])
            else if signature.Match(h, source[p..end]).Some?
              then [Copy(signature.Match(h, source[p..end]).value)] + NaiveTokens(h, signature, source, end)
            else [Literal(source[p])] + NaiveTokens(h, signature, source, p + 1)
  {}

  lemma StepRebuilds(c: Config, t: Token, rest: seq<Token>, bytes: seq<byte>, more: seq<byte>)
    requires t.Literal? ==> bytes == [t.value]
    requires t.Copy? ==> FullBlock(c, t.index) && BlockIs(c.base, c.blockSize, t.index, bytes)
    requires Rebuilds(c, rest, more)
    ensures Rebuilds(c, [t] + rest, bytes + more)
  {
    assert TokenBytes(c, t) == bytes;
    hide TokenBytes, GoodToken, BlockIs;
    OneToken(c, t);
    TokensBytesAppend(c, [t], rest);
  }

  /* ---- From operations to bytes ---- */

  predicate GoodOp(c: Config, op: Op) {
    match op
    case OpBlock(k) => FullBlock(c, k)
    case OpRange(k, additional) => FullBlock(c, k + additional)
    case OpData(_) => true
    case OpHash(_) => false
  }

  lemma GoodRun(c: Config, k: nat, additional: nat)
    requires c.Valid() && FullBlock(c, k + additional)
    ensures InBase(c, k, additional)
    ensures RunBytes(c, k, additional) == c.base[k * c.blockSize..(k + additional + 1) * c.blockSize]
  {}

  lemma SingleBytes(c: Config, t: Token)
    requires c.Valid() && GoodToken(c, t)
    ensures GoodOp(c, Single(t)) && OpBytes(c, Single(t)) == TokenBytes(c, t)
  {
    hide InBase, RunBytes;
    if t.Copy? {
      GoodRun(c, t.index, 0);
    }
  }

  lemma AbsorbBytes(c: Config, op: Op, t: Token)
    requires c.Valid() && GoodOp(c, op) && GoodToken(c, t) && Absorbs(op, t)
    ensures GoodOp(c, Absorb(op, t)) && OpBytes(c, Absorb(op, t)) == OpBytes(c, op) + TokenBytes(c, t)
  {
    hide InBase, RunBytes, FullBlock;
    if t.Copy? {
      var additional := op.LastBlock() - op.index;
      GoodRun(c, op.index, additional);
      GoodRun(c, op.index, additional + 1);
      RunsJoin(c, op.index, additional);
      assert t.index == op.index + additional + 1;
    }
  }

  lemma RunsJoin(c: Config, k: nat, additional: nat)
    requires FullBlock(c, k + additional + 1)
    ensures k * c.blockSize <= (k + additional + 1) * c.blockSize <= (k + additional + 2) * c.blockSize <= |c.base|
    ensures c.base[k * c.blockSize..(k + additional + 1) * c.blockSize]
          + c.base[(k + additional + 1) * c.blockSize..(k + additional + 2) * c.blockSize]
         == c.base[k * c.blockSize..(k + additional + 2) * c.blockSize]
  {}

  predicate AllGoodOps(c: Config, ops: seq<Op>) {
    forall k :: 0 <= k < |ops| ==> GoodOp(c, ops[k])
  }

  lemma PushBytes(c: Config, ops: seq<Op>, t: Token)
    requires c.Valid() && AllGoodOps(c, ops) && GoodToken(c, t)
    ensures AllGoodOps(c, Push(ops, t)) && Meaning(c, Push(ops, t)) == Meaning(c, ops) + TokenBytes(c, t)
  {
    hide GoodToken, TokenBytes, GoodOp, OpBytes, Absorbs, Absorb, Single, Meaning;
    SingleBytes(c, t);
    MeaningSnoc(c, ops, Single(t));
    if ops == [] {
      assert ops + [Single(t)] == [Single(t)];
    } else {
      var initial, last := ops[..|ops| - 1], ops[|ops| - 1];
      assert ops == initial + [last];
      MeaningSnoc(c, initial, last);
      if Absorbs(last, t) {
        AbsorbBytes(c, last, t);
        MeaningSnoc(c, initial, Absorb(last, t));
      }
    }
  }

  /** Merging and cutting do not change what is rebuilt. */
  lemma {:induction false} CanonRebuilds(c: Config, tokens: seq<Token>)
    requires c.Valid() && AllGood(c, tokens)
    ensures AllGoodOps(c, Canon(tokens)) && Meaning(c, Canon(tokens)) == TokensBytes(c, tokens)
    decreases |tokens|
  {
    hide GoodToken, TokenBytes, AllGoodOps, Push, Meaning;
    NothingRebuilt(c);
    if tokens != [] {
      CanonRebuilds(c, tokens[..|tokens| - 1]);
      PushBytes(c, Canon(tokens[..|tokens| - 1]), tokens[|tokens| - 1]);
    }
  }

  lemma NothingRebuilt(c: Config)
    requires 0 < c.blockSize
    ensures AllGoodOps(c, []) && Meaning(c, []) == []
  {}

  /* ---- The length of a delta ---- */

  /** Below this block size a delta of short copies can outgrow twice its source. */
  const MIN_COMPACT_BLOCK := 7

  function Covered(size: nat, tokens: seq<Token>): nat {
    if tokens == [] then 0 else
      Covered(size, tokens[..|tokens| - 1]) + (if tokens[|tokens| - 1].Copy? then size else 1)
  }

  lemma {:induction false} CoveredAppend(size: nat, tokens: seq<Token>, more: seq<Token>)
    ensures Covered(size, tokens + more) == Covered(size, tokens) + Covered(size, more)
    decreases |more|
  {
    if more == [] {
      assert tokens + more == tokens;
    } else {
      CoveredAppend(size, tokens, more[..|more| - 1]);
      assert (tokens + more)[..|tokens + more| - 1] == tokens + more[..|more| - 1];
    }
  }

  lemma {:induction false} CoveredLiterals(size: nat, bytes: seq<byte>)
    ensures Covered(size, Literals(bytes)) == |bytes|
    decreases |bytes|
  {
    if bytes != [] {
      CoveredLiterals(size, bytes[..|bytes| - 1]);
      assert Literals(bytes)[..|bytes| - 1] == Literals(bytes[..|bytes| - 1]);
    }
  }

  lemma CoveredCons(size: nat, t: Token, rest: seq<Token>)
    ensures Covered(size, [t] + rest) == (if t.Copy? then size else 1) + Covered(size, rest)
  {
    CoveredAppend(size, [t], rest);
    assert [t][..0] == [];
  }

  /** The matcher decides every source byte once, whatever the signature says. */
  lemma {:induction false} NaiveCovers(h: Hashes, signature: Signature, source: seq<byte>, p: nat)
    requires 0 < signature.blockSize && p <= |source|
    ensures Covered(signature.blockSize, NaiveTokens(h, signature, source, p)) == |source| - p
    decreases |source| - p
  {
    hide Signature.Match, NaiveTokens, Covered;
    NaiveUnfold(h, signature, source, p);
    var size, end := signature.blockSize, p + signature.blockSize;
    if end > |source| {
      CoveredLiterals(size, source[p..]);
    } else {
      var matched := signature.Match(h, source[p..end]);
      if matched.Some? {
        NaiveCovers(h, signature, source, end);
        CoveredCons(size, Copy(matched.value), NaiveTokens(h, signature, source, end));
      } else {
        NaiveCovers(h, signature, source, p + 1);
        CoveredCons(size, Literal(source[p]), NaiveTokens(h, signature, source, p + 1));
      }
    }
  }

  /** What a literal too short to pay for its header may still owe. */
  function Owed(ops: seq<Op>): nat {
    if ops != [] && ops[|ops| - 1].OpData? then SaturatingSub(5, |ops[|ops| - 1].bytes|) else 0
  }

  function WireLength(op: Op): nat {
    match op
    case OpBlock(_) => 9
    case OpRange(_, _) => 13
    case OpData(bytes) => 5 + |bytes|
    case OpHash(_) => 19
  }

  lemma EncodedLength(ops: seq<Op>, op: Op)
    ensures |op.Encode()| == WireLength(op)
    ensures |EncodeOps(ops + [op])| == |EncodeOps(ops)| + WireLength(op)
  {
    EncodeSnoc(ops, op);
  }

  lemma PushLength(ops: seq<Op>, t: Token, size: nat)
    requires Canonical(ops) && MIN_COMPACT_BLOCK <= size
    ensures |EncodeOps(Push(ops, t))| - Owed(Push(ops, t)) <= |EncodeOps(ops)| - Owed(ops)
        + 2 * (if t.Copy? then size else 1)
  {
    hide EncodeOps;
    EncodedLength(ops, Single(t));
    if ops == [] {
      assert ops + [Single(t)] == [Single(t)];
    } else {
      var initial, last := ops[..|ops| - 1], ops[|ops| - 1];
      assert ops == initial + [last];
      EncodedLength(initial, last);
      if Absorbs(last, t) {
        EncodedLength(initial, Absorb(last, t));
      }
    }
  }

  lemma {:induction false} CanonLength(tokens: seq<Token>, size: nat)
    requires MIN_COMPACT_BLOCK <= size
    ensures |EncodeOps(Canon(tokens))| <= 2 * Covered(size, tokens) + Owed(Canon(tokens))
    decreases |tokens|
  {
    hide EncodeOps, Push, Owed;
    NothingOwed();
    if tokens != [] {
      CanonLength(tokens[..|tokens| - 1], size);
      CanonExpands(tokens[..|tokens| - 1]);
      PushLength(Canon(tokens[..|tokens| - 1]), tokens[|tokens| - 1], size);
    }
  }

  lemma NothingOwed()
    ensures |EncodeOps([])| == 0 && Owed([]) == 0
  {}

  lemma OwesLittle(ops: seq<Op>)
    requires Canonical(ops)
    ensures Owed(ops) <= 4
  {}

  /** A delta is at most twice its source and 23 bytes, whatever the signature; the input limit allows for it. */
  lemma DeltaLength(h: Hashes, signature: Signature, source: seq<byte>)
    requires MIN_COMPACT_BLOCK <= signature.blockSize
    ensures |DeltaBytes(h, signature, source)| <= 2 * |source| + 23
    ensures forall limit: u64 :: |source| <= limit && 2 * |source| + 23 < U64_LIMIT ==>
              |DeltaBytes(h, signature, source)| <= DeltaInputLimit(limit)
  {
    hide EncodeOps, Canon, NaiveTokens, Covered, Owed;
    var tokens := NaiveTokens(h, signature, source, 0);
    NaiveCovers(h, signature, source, 0);
    CanonLength(tokens, signature.blockSize);
    CanonExpands(tokens);
    OwesLittle(Canon(tokens));
    EncodedLength(Canon(tokens), OpHash(h.digest(source)));
  }

  /* ---- The round trip ---- */

  /** Merged runs cannot outgrow their 32-bit length field when the base has at most 2^32 blocks. */
  lemma RunsEncodable(c: Config, signature: Signature, source: seq<byte>)
    requires c.Valid() && signature.blockSize == c.blockSize && signature.Honest(c.h, c.base)
    requires CollisionFree(c.h, c.base, c.blockSize, source)
    requires |c.base| <= U32_LIMIT * c.blockSize
    ensures AllEncodable(DeltaOps(c.h, signature, source))
  {
    var tokens := NaiveTokens(c.h, signature, source, 0);
    NaiveRebuilds(c, signature, source, 0);
    CanonRebuilds(c, tokens);
    CanonExpands(tokens);
    hide NaiveTokens, Canon, CollisionFree, Signature.Honest, GoodOp, CanonicalOp, Op.Encodable;
    var ops := Canon(tokens);
    forall k | 0 <= k < |ops| ensures ops[k].Encodable() {
      assert GoodOp(c, ops[k]) && CanonicalOp(ops[k]);
      GoodIsEncodable(c, ops[k]);
    }
  }

  lemma GoodIsEncodable(c: Config, op: Op)
    requires c.Valid() && |c.base| <= U32_LIMIT * c.blockSize && GoodOp(c, op) && CanonicalOp(op)
    ensures op.Encodable()
  {
    if op.Copies() {
      CancelFactor(op.LastBlock() + 1, U32_LIMIT, c.blockSize);
    }
  }

  lemma CancelFactor(a: nat, b: nat, factor: nat)
    requires 0 < factor && a * factor <= b * factor
    ensures a <= b
  {}

  lemma GoodIsApplicable(c: Config, op: Op)
    requires c.Valid() && GoodOp(c, op) && op.Encodable()
    ensures Applicable(c, op)
  {
    hide InBase, RunBytes;
    match op
    case OpBlock(k) => GoodRun(c, k, 0);
    case OpRange(k, additional) => GoodRun(c, k, additional);
    case OpData(_) =>
    case OpHash(_) =>
  }

  lemma AllGoodIsApplicable(c: Config, ops: seq<Op>)
    requires c.Valid() && AllGoodOps(c, ops) && AllEncodable(ops)
    ensures AllApplicable(c, ops)
  {
    hide GoodOp, Op.Encodable, Applicable;
    forall k | 0 <= k < |ops| ensures Applicable(c, ops[k]) {
      GoodIsApplicable(c, ops[k]);
    }
  }

  /** The delta written against an honest signature of the base is a whole delta that means the source. */
  lemma WrittenDeltaMeansSource(c: Config, signature: Signature, source: seq<byte>)
    requires c.Valid() && signature.blockSize == c.blockSize && signature.Honest(c.h, c.base)
    requires CollisionFree(c.h, c.base, c.blockSize, source) && |source| <= c.limit
    requires AllEncodable(DeltaOps(c.h, signature, source))
    ensures Meaning(c, DeltaOps(c.h, signature, source)) == source
    ensures IsDelta(c, DeltaOps(c.h, signature, source), DeltaBytes(c.h, signature, source))
  {
    hide NaiveTokens, Canon, CollisionFree, Signature.Honest, AllEncodable, AllGoodOps, AllApplicable, Meaning;
    hide EncodeOps;
    var tokens := NaiveTokens(c.h, signature, source, 0);
    NaiveRebuilds(c, signature, source, 0);
    assert source[0..] == source;
    CanonRebuilds(c, tokens);
    AllGoodIsApplicable(c, Canon(tokens));
  }

  /**
   * Round trip: however the written delta is cut into pieces, feeding them to a patcher over the
   * base ends with exactly the source and a matching checksum.
   */
  lemma DeltaRoundTrip(c: Config, signature: Signature, source: seq<byte>, parts: seq<seq<byte>>)
    requires c.Valid() && signature.blockSize == c.blockSize && signature.Honest(c.h, c.base)
    requires CollisionFree(c.h, c.base, c.blockSize, source) && |source| <= c.limit
    requires AllEncodable(DeltaOps(c.h, signature, source))
    requires Concat(parts) == DeltaBytes(c.h, signature, source)
    ensures RunAll(c, INITIAL, parts) == Ok(State(source, [], 0, true))
  {
    hide DeltaOps, DeltaBytes, CollisionFree, Signature.Honest, AllEncodable, IsDelta, Meaning, Run, RunAll;
    WrittenDeltaMeansSource(c, signature, source);
    DeltaAccepted(c, DeltaOps(c.h, signature, source), DeltaBytes(c.h, signature, source));
    SplitIndependence(c, INITIAL, parts);
  }

  /** Feed a delta to a patcher in pieces of any sizes, then finish. */
  method ApplyInPieces(h: Hashes, base: seq<byte>, blockSize: nat, limit: u64, delta: seq<byte>)
    returns (r: Result<seq<byte>, IoError>)
    requires 0 < blockSize <= MAX_BLOCK_BYTES && |base| < U64_LIMIT
    ensures r.Ok? <==>
              && |delta| <= DeltaInputLimit(limit)
              && exists ops: seq<Op> :: IsDelta(Config(h, base, blockSize, limit), ops, delta)
    ensures r.Ok? ==> forall ops: seq<Op> :: IsDelta(Config(h, base, blockSize, limit), ops, delta) ==>
                        r.value == Meaning(Config(h, base, blockSize, limit), ops)
  {
    hide IsDelta, Meaning, Run, DeltaInputLimit;
    var patcher := new Patcher(h, base, blockSize, limit);
    ghost var c := Config(h, base, blockSize, limit);
    PatcherMeaning(c, delta);
    var given := 0;
    RunNothing(c, INITIAL);
    assert delta[..0] == [];
    while given < |delta|
      invariant 0 <= given <= |delta| && patcher.Valid() && fresh(patcher)
      invariant patcher.Settings() == c && patcher.bytesReceived == given
      invariant Run(c, INITIAL, delta[..given]) == Ok(patcher.Progress())
      invariant given <= patcher.inputLimit
    {
      var end :| given < end <= |delta|;
      assert delta[..given] + delta[given..end] == delta[..end] && delta[..end] + delta[end..] == delta;
      RunSplit(c, INITIAL, delta[..given], delta[given..end]);
      RunSplit(c, INITIAL, delta[..end], delta[end..]);
      var written := patcher.Write(delta[given..end]);
      if written.Err? {
        return Err(written.error);
      }
      given := end;
    }
    assert delta[..given] == delta;
    FinishedState(c, delta, patcher.Progress());
    r := patcher.Finish();
  }

  /** A run that ended with the checksum owes nothing, and one within the limit never passed it. */
  lemma FinishedState(c: Config, input: seq<byte>, s: State)
    requires 0 < c.blockSize && Run(c, INITIAL, input) == Ok(s)
    ensures |s.output| <= c.limit && (s.seen ==> s.pending == [] && s.remaining == 0)
  {
    hide Run, AllApplicable, EncodeOps, Meaning, OperationBytesNeeded;
    var ops, tail := RunExplained(c, input, s);
  }

  /** A signature that was written for a base parses to an honest one. */
  method OfferBase(h: Hashes, base: seq<byte>, blockSize: nat) returns (signature: Signature)
    requires HASH_BLOCK_BYTES <= blockSize <= MAX_BLOCK_BYTES && |base| < U64_LIMIT
    ensures signature.blockSize == blockSize && signature.Honest(h, base)
  {
    hide AllRecords, FirstIndex;
    var source := new ByteSource(base);
    var written, bytes := WriteSignature(h, source, |base|, blockSize);
    ParseWritten(h, base, blockSize);
    var parsed := Parse(bytes, |bytes|);
    return parsed.value;
  }

  /** Offer a base, write the delta of a source against it, and rebuild the source. */
  method Transfer(h: Hashes, base: seq<byte>, source: seq<byte>, blockSize: nat) returns (r: Result<seq<byte>, IoError>)
    requires HASH_BLOCK_BYTES <= blockSize <= MAX_BLOCK_BYTES
    requires |base| < U64_LIMIT && |base| <= U32_LIMIT * blockSize && 2 * |source| + 23 < U64_LIMIT
    requires CollisionFree(h, base, blockSize, source)
    ensures r == Ok(source)
  {
    hide CollisionFree, DeltaOps, DeltaBytes, AllEncodable, IsDelta, Meaning, DeltaInputLimit, Signature.Honest;
    ghost var c := Config(h, base, blockSize, |source|);
    var signature := OfferBase(h, base, blockSize);
    var reader := new ByteSource(source);
    RunsEncodable(c, signature, source);
    var written, delta := WriteDelta(h, reader, signature);
    WrittenDeltaMeansSource(c, signature, source);
    DeltaLength(h, signature, source);
    r := ApplyInPieces(h, base, blockSize, |source|, delta);
  }
}