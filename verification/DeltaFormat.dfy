/** The operations of a Kitty rsync delta, their wire form, and the canonical delta of a match. */
module DeltaFormat {
  import opened Bytes
  import opened ByteStreams

  const MAX_LITERAL_BYTES := 64 * 1024
  const OUTPUT_HASH_BYTES := 16

  const OP_BLOCK: byte := 0
  const OP_DATA: byte := 1
  const OP_HASH: byte := 2
  const OP_BLOCK_RANGE: byte := 3

  /** Indices and counts are unbounded here; `Encodable` says which operations have a wire form. */
  datatype Op =
    | OpBlock(index: nat)
    | OpRange(index: nat, additional: nat)
    | OpData(bytes: seq<byte>)
    | OpHash(digest: OutputHash)
  {
    predicate Encodable() {
      match this
      case OpBlock(index) => index < U64_LIMIT
      case OpRange(index, additional) => index < U64_LIMIT && additional < U32_LIMIT
      case OpData(bytes) => |bytes| < U32_LIMIT
      case OpHash(_) => true
    }

    function Encode(): seq<byte> {
      match this
      case OpBlock(index) => [OP_BLOCK] + LittleEndian(index, 8)
      case OpRange(index, additional) => [OP_BLOCK_RANGE] + LittleEndian(index, 8) + LittleEndian(additional, 4)
      case OpData(bytes) => [OP_DATA] + LittleEndian(|bytes|, 4) + bytes
      case OpHash(digest) => [OP_HASH] + LittleEndian(OUTPUT_HASH_BYTES, 2) + digest
    }

    predicate Copies() {
      OpBlock? || OpRange?
    }

    /** The last block that a copy names. */
    function LastBlock(): nat
      requires Copies()
    {
      if OpBlock? then index else index + additional
    }
  }

  /** An operation byte by byte, as the format lays it out. */
  predicate OnTheWire(op: Op, s: seq<byte>) {
    match op
    case OpBlock(index) => |s| == 9 && s[0] == 0 && U64(s[1..9]) == index
    case OpData(bytes) => |s| == 5 + |bytes| && s[0] == 1 && U32(s[1..5]) == |bytes| && s[5..] == bytes
    case OpHash(digest) => |s| == 19 && s[0] == 2 && U16(s[1..3]) == 16 && s[3..] == digest
    case OpRange(index, additional) => |s| == 13 && s[0] == 3 && U64(s[1..9]) == index && U32(s[9..13]) == additional
  }

  lemma EncodedOnTheWire(op: Op)
    requires op.Encodable()
    ensures OnTheWire(op, op.Encode())
  {
    hide LittleEndian, U16, U32, U64;
    var s := op.Encode();
    match op {
      case OpBlock(index) =>
        EncodedFields(index);
        assert s[1..9] == LittleEndian(index, 8);
      case OpData(bytes) =>
        EncodedFields(|bytes|);
        assert s[1..5] == LittleEndian(|bytes|, 4);
      case OpHash(digest) =>
        EncodedFields(OUTPUT_HASH_BYTES);
        assert s[1..3] == LittleEndian(OUTPUT_HASH_BYTES, 2);
      case OpRange(index, additional) =>
        EncodedFields(index);
        EncodedFields(additional);
        assert s[1..9] == LittleEndian(index, 8) && s[9..13] == LittleEndian(additional, 4);
    }
  }

  predicate AllEncodable(ops: seq<Op>) {
    forall k :: 0 <= k < |ops| ==> ops[k].Encodable()
  }

  function EncodeOps(ops: seq<Op>): seq<byte> {
    if ops == [] then [] else ops[0].Encode() + EncodeOps(ops[1..])
  }

  lemma EncodeCons(ops: seq<Op>)
    ensures ops == [] ==> EncodeOps(ops) == []
    ensures ops != [] ==> EncodeOps(ops) == ops[0].Encode() + EncodeOps(ops[1..])
  {}

  lemma {:induction false} EncodeAppend(ops: seq<Op>, more: seq<Op>)
    ensures EncodeOps(ops + more) == EncodeOps(ops) + EncodeOps(more)
  {
    hide Op.Encode, EncodeOps;
    EncodeCons(ops);
    if ops == [] {
      assert ops + more == more;
    } else {
      EncodeAppend(ops[1..], more);
      EncodeCons(ops + more);
      assert (ops + more)[0] == ops[0] && (ops + more)[1..] == ops[1..] + more;
    }
  }

  lemma EncodeSnoc(ops: seq<Op>, op: Op)
    ensures EncodeOps(ops + [op]) == EncodeOps(ops) + op.Encode()
  {
    hide Op.Encode, EncodeOps;
    EncodeAppend(ops, [op]);
    EncodeCons([op]);
    EncodeCons([op][1..]);
  }

  /** What a matcher decides, before any operation is formed: send a byte, or copy a block. */
  datatype Token = Literal(value: byte) | Copy(index: nat)

  function Literals(bytes: seq<byte>): (ts: seq<Token>)
    ensures |ts| == |bytes|
    ensures forall k :: 0 <= k < |ts| ==> ts[k] == Literal(bytes[k])
  {
    seq(|bytes|, k requires 0 <= k < |bytes| => Literal(bytes[k]))
  }

  /** The tokens that an operation stands for. */
  function CopyRun(index: nat, count: nat): (ts: seq<Token>)
    ensures |ts| == count
    ensures forall k :: 0 <= k < count ==> ts[k] == Copy(index + k)
  {
    seq(count, k requires 0 <= k < count => Copy(index + k))
  }

  predicate CanonicalOp(op: Op) {
    match op
    case OpBlock(_) => true
    case OpRange(_, additional) => 1 <= additional
    case OpData(bytes) => 1 <= |bytes| <= MAX_LITERAL_BYTES
    case OpHash(_) => false
  }

  function ExpandOp(op: Op): seq<Token>
  {
    match op
    case OpBlock(index) => CopyRun(index, 1)
    case OpRange(index, additional) => CopyRun(index, additional + 1)
    case OpData(bytes) => Literals(bytes)
    case OpHash(_) => []
  }

  predicate AllCanonicalOps(ops: seq<Op>) {
    forall k :: 0 <= k < |ops| ==> CanonicalOp(ops[k])
  }

  function Expand(ops: seq<Op>): seq<Token> {
    if ops == [] then [] else Expand(ops[..|ops| - 1]) + ExpandOp(ops[|ops| - 1])
  }

  /** Neither operation could have absorbed the start of the next. */
  predicate Separate(op: Op, next: Op) {
    && !(op.Copies() && next.Copies() && op.LastBlock() + 1 == next.index)
    && !(op.OpData? && next.OpData? && |op.bytes| < MAX_LITERAL_BYTES)
  }

  /** As few operations as possible: block runs merged, literals only cut at 64 KiB. */
  predicate Canonical(ops: seq<Op>) {
    && AllCanonicalOps(ops)
    && forall k :: 0 < k < |ops| ==> Separate(ops[k - 1], ops[k])
  }

  /** Add one token to a canonical delta. */
  function Push(ops: seq<Op>, t: Token): seq<Op> {
    if ops == [] then [Single(t)] else
      var last := ops[|ops| - 1];
      if Absorbs(last, t) then ops[..|ops| - 1] + [Absorb(last, t)] else ops + [Single(t)]
  }

  function Single(t: Token): Op {
    match t
    case Literal(b) => OpData([b])
    case Copy(index) => OpBlock(index)
  }

  predicate Absorbs(op: Op, t: Token) {
    match t
    case Literal(b) => op.OpData? && |op.bytes| < MAX_LITERAL_BYTES
    case Copy(index) => op.Copies() && op.LastBlock() + 1 == index
  }

  function Absorb(op: Op, t: Token): Op
    requires Absorbs(op, t)
  {
    match t
    case Literal(b) => OpData(op.bytes + [b])
    case Copy(_) => if op.OpBlock? then OpRange(op.index, 1) else OpRange(op.index, op.additional + 1)
  }

  /** The canonical delta of a token sequence. */
  function Canon(tokens: seq<Token>): seq<Op> {
    if tokens == [] then [] else Push(Canon(tokens[..|tokens| - 1]), tokens[|tokens| - 1])
  }

  lemma CanonSnoc(tokens: seq<Token>, t: Token)
    ensures Canon(tokens + [t]) == Push(Canon(tokens), t)
  {}

  lemma ExpandSnoc(ops: seq<Op>, op: Op)
    ensures Expand(ops + [op]) == Expand(ops) + ExpandOp(op)
  {}

  lemma CanonicalSnoc(ops: seq<Op>, op: Op)
    ensures Canonical(ops + [op]) <==> Canonical(ops) && CanonicalOp(op) && (ops == [] || Separate(ops[|ops| - 1], op))
  {
    hide CanonicalOp, Separate;
    var more := ops + [op];
    assert more[|ops|] == op;
    assert forall k :: 0 <= k < |ops| ==> more[k] == ops[k];
  }

  /** What absorbing one token does to an operation on its own. */
  lemma AbsorbOne(op: Op, t: Token)
    requires CanonicalOp(op) && Absorbs(op, t)
    ensures CanonicalOp(Absorb(op, t)) && ExpandOp(Absorb(op, t)) == ExpandOp(op) + [t]
    ensures forall before: Op :: Separate(before, op) ==> Separate(before, Absorb(op, t))
  {}

  lemma SingleToken(t: Token)
    ensures CanonicalOp(Single(t)) && ExpandOp(Single(t)) == [t]
    ensures forall before: Op :: Separate(before, Single(t)) <==> !Absorbs(before, t)
  {}

  lemma PushExpands(ops: seq<Op>, t: Token)
    requires Canonical(ops)
    ensures Canonical(Push(ops, t)) && Expand(Push(ops, t)) == Expand(ops) + [t]
  {
    hide CanonicalOp, Separate, Absorbs, Absorb, Single, Canonical, Expand, ExpandOp;
    SingleToken(t);
    ExpandSnoc(ops, Single(t));
    CanonicalSnoc(ops, Single(t));
    if ops == [] {
      assert ops + [Single(t)] == [Single(t)];
    } else {
      var initial, last := ops[..|ops| - 1], ops[|ops| - 1];
      assert ops == initial + [last];
      ExpandSnoc(initial, last);
      CanonicalSnoc(initial, last);
      if Absorbs(last, t) {
        AbsorbOne(last, t);
        ExpandSnoc(initial, Absorb(last, t));
        CanonicalSnoc(initial, Absorb(last, t));
      }
    }
  }

  lemma EmptyIsCanonical()
    ensures Canonical([]) && Expand([]) == []
  {}

  /** The canonical delta stands for exactly its tokens. */
  lemma {:induction false} CanonExpands(tokens: seq<Token>)
    ensures Canonical(Canon(tokens)) && Expand(Canon(tokens)) == tokens
  {
    hide Push, Expand, Canonical;
    EmptyIsCanonical();
    if tokens != [] {
      CanonExpands(tokens[..|tokens| - 1]);
      PushExpands(Canon(tokens[..|tokens| - 1]), tokens[|tokens| - 1]);
    }
  }

  /** Take the last token off the last operation. */
  function Shrink(op: Op): (r: (seq<Op>, Token))
    requires CanonicalOp(op)
  {
    match op
    case OpBlock(index) => ([], Copy(index))
    case OpRange(index, additional) =>
      ([if additional == 1 then OpBlock(index) else OpRange(index, additional - 1)], Copy(index + additional))
    case OpData(bytes) =>
      var rest := bytes[..|bytes| - 1];
      (if rest == [] then [] else [OpData(rest)], Literal(bytes[|bytes| - 1]))
  }

  lemma ShrinkOne(op: Op)
    requires CanonicalOp(op)
    ensures var (rest, t) := Shrink(op);
            && (rest == [] ==> op == Single(t))
            && (rest != [] ==> |rest| == 1 && CanonicalOp(rest[0]) && Absorbs(rest[0], t) && Absorb(rest[0], t) == op)
    ensures var (rest, t) := Shrink(op);
            rest != [] ==> forall before: Op :: Separate(before, op) ==> Separate(before, rest[0])
  {}

  lemma PopIsPushInverse(ops: seq<Op>)
    requires Canonical(ops) && ops != []
    ensures CanonicalOp(ops[|ops| - 1])
    ensures var (rest, t) := Shrink(ops[|ops| - 1]);
            var fewer := ops[..|ops| - 1] + rest;
            Canonical(fewer) && Push(fewer, t) == ops
  {
    hide CanonicalOp, Separate, Absorbs, Absorb, Single, Canonical, Shrink;
    var initial, last := ops[..|ops| - 1], ops[|ops| - 1];
    assert ops == initial + [last];
    CanonicalSnoc(initial, last);
    ShrinkOne(last);
    var (rest, t) := Shrink(last);
    SingleToken(t);
    if rest == [] {
      assert initial + rest == initial;
    } else {
      assert initial + rest == initial + [rest[0]];
      CanonicalSnoc(initial, rest[0]);
      assert (initial + rest)[..|initial|] == initial;
    }
  }

  /** No other operation list without redundant cuts stands for the same tokens. */
  lemma {:induction false} CanonUnique(ops: seq<Op>)
    requires Canonical(ops)
    ensures Canon(Expand(ops)) == ops
    decreases |Expand(ops)|
  {
    if ops != [] {
      var (rest, t) := Shrink(ops[|ops| - 1]);
      var fewer := ops[..|ops| - 1] + rest;
      PopIsPushInverse(ops);
      PushExpands(fewer, t);
      CanonUnique(fewer);
      assert Expand(ops)[..|Expand(ops)| - 1] == Expand(fewer);
    }
  }

  /** An operation that has no wire form keeps having none as tokens are added. */
  lemma {:induction false} UnencodableStays(tokens: seq<Token>, more: seq<Token>)
    requires !AllEncodable(Canon(tokens))
    ensures !AllEncodable(Canon(tokens + more))
    decreases |more|
  {
    hide Push, Expand, Canonical, AllEncodable;
    if more == [] {
      assert tokens + more == tokens;
    } else {
      var initial := tokens + more[..|more| - 1];
      UnencodableStays(tokens, more[..|more| - 1]);
      assert (tokens + more)[..|tokens + more| - 1] == initial;
      CanonExpands(initial);
      UnencodablePush(Canon(initial), more[|more| - 1]);
    }
  }

  lemma UnencodablePush(ops: seq<Op>, t: Token)
    requires !AllEncodable(ops) && Canonical(ops)
    ensures !AllEncodable(Push(ops, t))
  {
    var k :| 0 <= k < |ops| && !ops[k].Encodable();
    assert !Push(ops, t)[k].Encodable();
  }

  /** The literal pieces of a run of bytes: full 64 KiB chunks and a remainder. */
  function Chunks(bytes: seq<byte>): seq<Op> {
    if bytes == [] then []
    else if |bytes| <= MAX_LITERAL_BYTES then [OpData(bytes)]
    else [OpData(bytes[..MAX_LITERAL_BYTES])] + Chunks(bytes[MAX_LITERAL_BYTES..])
  }

  /** A literal that starts here starts a new operation. */
  predicate Aligned(ops: seq<Op>) {
    ops != [] && ops[|ops| - 1].OpData? ==> |ops[|ops| - 1].bytes| == MAX_LITERAL_BYTES
  }

  lemma LiteralsAppend(bytes: seq<byte>, more: seq<byte>)
    ensures Literals(bytes + more) == Literals(bytes) + Literals(more)
  {}

  /** A byte after a partial literal makes that literal longer. */
  lemma PushLiteral(ops: seq<Op>, bytes: seq<byte>, b: byte)
    requires |bytes| < MAX_LITERAL_BYTES && (bytes == [] ==> Aligned(ops))
    ensures Push(if bytes == [] then ops else ops + [OpData(bytes)], Literal(b)) == ops + [OpData(bytes + [b])]
  {
    if bytes == [] {
      assert bytes + [b] == [b];
    } else {
      assert (ops + [OpData(bytes)])[..|ops|] == ops;
    }
  }

  lemma {:induction false} CanonOneChunk(tokens: seq<Token>, bytes: seq<byte>)
    requires Aligned(Canon(tokens)) && 1 <= |bytes| <= MAX_LITERAL_BYTES
    ensures Canon(tokens + Literals(bytes)) == Canon(tokens) + [OpData(bytes)]
    decreases |bytes|
  {
    hide Canon, Literals, Aligned, Push;
    var initial, last := bytes[..|bytes| - 1], bytes[|bytes| - 1];
    assert initial + [last] == bytes;
    LiteralsAppend(initial, [last]);
    assert Literals([last]) == [Literal(last)];
    assert tokens + Literals(initial) + [Literal(last)] == tokens + Literals(bytes);
    CanonSnoc(tokens + Literals(initial), Literal(last));
    PushLiteral(Canon(tokens), initial, last);
    if initial == [] {
      assert tokens + Literals(initial) == tokens;
    } else {
      CanonOneChunk(tokens, initial);
    }
  }

  lemma {:induction false} CanonLiterals(tokens: seq<Token>, bytes: seq<byte>)
    requires Aligned(Canon(tokens))
    ensures Canon(tokens + Literals(bytes)) == Canon(tokens) + Chunks(bytes)
    decreases |bytes|
  {
    hide Canon, Literals;
    if bytes == [] {
      assert tokens + Literals(bytes) == tokens;
    } else if |bytes| <= MAX_LITERAL_BYTES {
      CanonOneChunk(tokens, bytes);
    } else {
      var first, rest := bytes[..MAX_LITERAL_BYTES], bytes[MAX_LITERAL_BYTES..];
      CanonOneChunk(tokens, first);
      LiteralsAppend(first, rest);
      assert first + rest == bytes;
      var next := tokens + Literals(first);
      assert next + Literals(rest) == tokens + Literals(bytes);
      CanonLiterals(next, rest);
      assert Canon(next) + Chunks(rest) == Canon(tokens) + ([OpData(first)] + Chunks(rest));
    }
  }
}
