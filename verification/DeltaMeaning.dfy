/** What the patcher computes: parse the whole delta, apply its operations, check the checksum. */
module DeltaMeaning {
  import opened Bytes
  import opened ByteStreams
  import opened Signatures
  import opened DeltaFormat
  import opened DeltaPatcher

  /** The bytes an operation contributes. */
  function OpBytes(c: Config, op: Op): seq<byte>
    requires 0 < c.blockSize
  {
    match op
    case OpBlock(index) => if InBase(c, index, 0) then RunBytes(c, index, 0) else []
    case OpRange(index, additional) => if InBase(c, index, additional) then RunBytes(c, index, additional) else []
    case OpData(bytes) => bytes
    case OpHash(_) => []
  }

  predicate Applicable(c: Config, op: Op)
    requires 0 < c.blockSize
  {
    match op
    case OpBlock(index) => op.Encodable() && InBase(c, index, 0)
    case OpRange(index, additional) => op.Encodable() && InBase(c, index, additional)
    case OpData(_) => op.Encodable()
    case OpHash(_) => false
  }

  /** Every copied range lies inside the base and every operation has a wire form. */
  predicate AllApplicable(c: Config, ops: seq<Op>)
    requires 0 < c.blockSize
  {
    forall k :: 0 <= k < |ops| ==> Applicable(c, ops[k])
  }

  /** The output that a list of operations stands for. */
  function Meaning(c: Config, ops: seq<Op>): seq<byte>
    requires 0 < c.blockSize
  {
    if ops == [] then [] else OpBytes(c, ops[0]) + Meaning(c, ops[1..])
  }

  lemma {:induction false} MeaningAppend(c: Config, ops: seq<Op>, more: seq<Op>)
    requires 0 < c.blockSize
    ensures Meaning(c, ops + more) == Meaning(c, ops) + Meaning(c, more)
  {
    hide OpBytes;
    if ops == [] {
      assert ops + more == more;
    } else {
      MeaningAppend(c, ops[1..], more);
      assert (ops + more)[1..] == ops[1..] + more;
    }
  }

  lemma MeaningSnoc(c: Config, ops: seq<Op>, op: Op)
    requires 0 < c.blockSize
    ensures Meaning(c, ops + [op]) == Meaning(c, ops) + OpBytes(c, op)
    ensures AllApplicable(c, ops) && Applicable(c, op) ==> AllApplicable(c, ops + [op])
  {
    hide OpBytes, Applicable;
    MeaningAppend(c, ops, [op]);
    assert Meaning(c, [op]) == OpBytes(c, op) + Meaning(c, []);
  }

  /** `input` is a whole delta: applicable operations within the limit, then the checksum of what they mean. */
  ghost predicate IsDelta(c: Config, ops: seq<Op>, input: seq<byte>)
    requires 0 < c.blockSize
  {
    && AllApplicable(c, ops) && |Meaning(c, ops)| <= c.limit
    && input == EncodeOps(ops + [OpHash(c.h.digest(Meaning(c, ops)))])
  }

  /** Between two operations. */
  predicate AtBoundary(s: State) {
    s.pending == [] && s.remaining == 0 && !s.seen
  }

  /* ---- A delta is accepted ---- */

  lemma PrefixStarted(operation: seq<byte>, k: nat)
    requires Complete(operation) && k < |operation|
    ensures HeaderStarted(operation[..k])
    ensures 0 < k ==> OperationBytesNeeded(operation[..k]).Ok? && k < OperationBytesNeeded(operation[..k]).value
  {
    if 3 <= k {
      assert operation[..k][1..3] == operation[1..3];
    }
  }

  lemma {:induction false} RunCollect(c: Config, s: State, operation: seq<byte>, k: nat)
    requires 0 < c.blockSize && AtBoundary(s) && Complete(operation) && k < |operation|
    ensures Run(c, s, operation[..k]) == Ok(s.(pending := operation[..k]))
    decreases k
  {
    hide Execute, OperationBytesNeeded;
    if k > 0 {
      RunCollect(c, s, operation, k - 1);
      PrefixStarted(operation, k);
      var before := s.(pending := operation[..k - 1]);
      assert operation[..k - 1] + [operation[k - 1]] == operation[..k];
      RunOne(c, before, operation[k - 1]);
      RunSplit(c, s, operation[..k - 1], [operation[k - 1]]);
    }
  }

  lemma RunOne(c: Config, s: State, b: byte)
    requires 0 < c.blockSize
    ensures Run(c, s, [b]) == StepByte(c, s, b)
  {}

  /** A complete header is executed once its last byte arrives. */
  lemma RunOperation(c: Config, s: State, operation: seq<byte>)
    requires 0 < c.blockSize && AtBoundary(s) && Complete(operation)
    ensures Run(c, s, operation) == Execute(c, s, operation)
  {
    hide Execute, OperationBytesNeeded;
    var k := |operation| - 1;
    RunCollect(c, s, operation, k);
    var before := s.(pending := operation[..k]);
    assert operation[..k] + [operation[k]] == operation;
    RunOne(c, before, operation[k]);
    RunSplit(c, s, operation[..k], [operation[k]]);
    assert before.(pending := []) == s;
  }

  lemma CopyIsComplete(op: Op)
    requires op.Copies() && op.Encodable()
    ensures Complete(op.Encode()) && FromLe64(op.Encode()[1..9]) == op.index
    ensures op.OpBlock? ==> op.Encode()[0] == OP_BLOCK
    ensures op.OpRange? ==> op.Encode()[0] == OP_BLOCK_RANGE && FromLe32(op.Encode()[9..13]) == op.additional
  {
    var s := op.Encode();
    assert s[1..9] == Le64(op.index);
    Le64RoundTrip(op.index);
    if op.OpRange? {
      assert s[9..13] == Le32(op.additional);
      Le32RoundTrip(op.additional);
    }
  }

  lemma DataHeaderIsComplete(length: u32)
    ensures var header := [OP_DATA] + Le32(length);
            Complete(header) && header[0] == OP_DATA && FromLe32(header[1..5]) == length
  {
    var header := [OP_DATA] + Le32(length);
    assert header[1..5] == Le32(length);
    Le32RoundTrip(length);
  }

  lemma HashIsComplete(digest: OutputHash)
    ensures var header := OpHash(digest).Encode();
            Complete(header) && header[0] == OP_HASH && header[3..] == digest
  {
    var header := OpHash(digest).Encode();
    assert header[1..3] == Le16(OUTPUT_HASH_BYTES);
    Le16RoundTrip(OUTPUT_HASH_BYTES);
  }

  lemma RunOp(c: Config, s: State, op: Op)
    requires 0 < c.blockSize && AtBoundary(s) && Applicable(c, op)
    requires |s.output| + |OpBytes(c, op)| <= c.limit
    ensures Run(c, s, op.Encode()) == Ok(s.(output := s.output + OpBytes(c, op)))
  {
    hide Run, OperationBytesNeeded, InBase, RunBytes, StepByte, Complete;
    if op.OpData? {
      var header := [OP_DATA] + Le32(|op.bytes|);
      DataHeaderIsComplete(|op.bytes|);
      RunOperation(c, s, header);
      RunSplit(c, s, header, op.bytes);
      assert op.bytes + [] == op.bytes;
      RunLiteral(c, s.(remaining := |op.bytes|), op.bytes, []);
      RunNothing(c, s.(output := s.output + op.bytes));
    } else {
      CopyIsComplete(op);
      hide Op.Encode;
      RunOperation(c, s, op.Encode());
    }
  }

  lemma RunNothing(c: Config, s: State)
    requires 0 < c.blockSize
    ensures Run(c, s, []) == Ok(s)
  {}

  lemma {:induction false} RunOps(c: Config, s: State, ops: seq<Op>)
    requires 0 < c.blockSize && AtBoundary(s) && AllApplicable(c, ops)
    requires |s.output| + |Meaning(c, ops)| <= c.limit
    ensures Run(c, s, EncodeOps(ops)) == Ok(s.(output := s.output + Meaning(c, ops)))
    decreases |ops|
  {
    hide Applicable, OpBytes, Op.Encode, Run;
    if ops == [] {
      RunNothing(c, s);
      assert s.output + [] == s.output;
    } else {
      RunOp(c, s, ops[0]);
      var next := s.(output := s.output + OpBytes(c, ops[0]));
      RunOps(c, next, ops[1..]);
      RunSplit(c, s, ops[0].Encode(), EncodeOps(ops[1..]));
      assert next.output + Meaning(c, ops[1..]) == s.output + Meaning(c, ops);
    }
  }

  /** Every whole delta is accepted, and yields its meaning. */
  lemma DeltaAccepted(c: Config, ops: seq<Op>, input: seq<byte>)
    requires 0 < c.blockSize && IsDelta(c, ops, input)
    ensures Run(c, INITIAL, input) == Ok(State(Meaning(c, ops), [], 0, true))
  {
    hide Applicable, OpBytes, Op.Encode, Run, EncodeOps, Meaning, Complete;
    var output := Meaning(c, ops);
    var hash := OpHash(c.h.digest(output));
    EncodeSnoc(ops, hash);
    RunOps(c, INITIAL, ops);
    assert [] + output == output;
    HashIsComplete(hash.digest);
    RunOperation(c, State(output, [], 0, false), hash.Encode());
    RunSplit(c, INITIAL, EncodeOps(ops), hash.Encode());
  }

  /* ---- What was accepted is a delta ---- */

  /** `input` has been read as `ops`, and then `tail`, which is not a whole operation unless it is the checksum. */
  ghost predicate Explains(c: Config, input: seq<byte>, s: State, ops: seq<Op>, tail: seq<byte>)
    requires 0 < c.blockSize
  {
    && AllApplicable(c, ops) && input == EncodeOps(ops) + tail
    && |s.output| + s.remaining <= c.limit
    && TailExplains(c, s, Meaning(c, ops), tail)
  }

  ghost predicate TailExplains(c: Config, s: State, written: seq<byte>, tail: seq<byte>) {
    if s.seen then
      s.pending == [] && s.remaining == 0 && s.output == written && tail == OpHash(c.h.digest(written)).Encode()
    else if s.remaining == 0 then
      s.output == written && tail == s.pending && HeaderStarted(s.pending)
    else
      && s.pending == [] && written <= s.output
      && var bytes := s.output[|written|..];
         |bytes| + s.remaining < U32_LIMIT && tail == [OP_DATA] + LittleEndian(|bytes| + s.remaining, 4) + bytes
  }

  /** A literal byte: the literal goes on, or it was the last one. */
  lemma ExplainLiteral(c: Config, input: seq<byte>, s: State, ops: seq<Op>, tail: seq<byte>, b: byte)
    returns (ops': seq<Op>, tail': seq<byte>)
    requires 0 < c.blockSize && Explains(c, input, s, ops, tail) && !s.seen && s.remaining != 0
    ensures StepByte(c, s, b).Ok? && Explains(c, input + [b], StepByte(c, s, b).value, ops', tail')
  {
    hide EncodeOps, Meaning, OpBytes, OperationBytesNeeded, LittleEndian;
    var written := Meaning(c, ops);
    var bytes := s.output[|written|..] + [b];
    var next := s.(output := s.output + [b], remaining := s.remaining - 1);
    assert StepByte(c, s, b) == Ok(next);
    assert next.output == written + bytes;
    if next.remaining == 0 {
      ops', tail' := ops + [OpData(bytes)], [];
      MeaningSnoc(c, ops, OpData(bytes));
      DataBytes(c, bytes);
      EncodeSnoc(ops, OpData(bytes));
      assert tail + [b] == OpData(bytes).Encode();
      assert input + [b] == EncodeOps(ops') + [];
      assert next.output == Meaning(c, ops');
    } else {
      ops', tail' := ops, tail + [b];
      assert next.output[|written|..] == bytes;
      assert tail' == [OP_DATA] + LittleEndian(|bytes| + next.remaining, 4) + bytes;
      assert input + [b] == EncodeOps(ops) + tail';
    }
  }

  lemma DataBytes(c: Config, bytes: seq<byte>)
    requires 0 < c.blockSize
    ensures OpBytes(c, OpData(bytes)) == bytes
  {}

  /** The operation whose header is complete. */
  function HeaderOp(operation: seq<byte>): (op: Op)
    requires Complete(operation) && operation[0] != OP_DATA
    ensures op.Encodable() && op.Encode() == operation
  {
    if operation[0] == OP_BLOCK then
      assert operation == [OP_BLOCK] + operation[1..9];
      OpBlock(FromLe64(operation[1..9]))
    else if operation[0] == OP_BLOCK_RANGE then
      assert operation == [OP_BLOCK_RANGE] + operation[1..9] + operation[9..13];
      OpRange(FromLe64(operation[1..9]), FromLe32(operation[9..13]))
    else
      var digest: OutputHash := operation[3..];
      assert operation == [OP_HASH] + operation[1..3] + digest;
      OpHash(digest)
  }

  lemma ExplainOpenLiteral(c: Config, input: seq<byte>, s: State, ops: seq<Op>, operation: seq<byte>)
    returns (ops': seq<Op>, tail': seq<byte>)
    requires 0 < c.blockSize && AtBoundary(s) && Complete(operation) && operation[0] == OP_DATA
    requires AllApplicable(c, ops) && input == EncodeOps(ops) + operation
    requires s.output == Meaning(c, ops) && |s.output| <= c.limit
    requires Execute(c, s, operation).Ok?
    ensures Explains(c, input, Execute(c, s, operation).value, ops', tail')
  {
    hide EncodeOps, Meaning, OpBytes;
    var length := FromLe32(operation[1..5]);
    assert operation == [OP_DATA] + LittleEndian(length, 4);
    if length == 0 {
      ops', tail' := ops + [OpData([])], [];
      MeaningSnoc(c, ops, OpData([]));
      DataBytes(c, []);
      EncodeSnoc(ops, OpData([]));
      assert operation == OpData([]).Encode();
      assert input == EncodeOps(ops') + [];
    } else {
      ops', tail' := ops, operation;
      assert s.output[|s.output|..] == [] && operation == [OP_DATA] + LittleEndian(length, 4) + [];
    }
  }

  lemma ExplainExecute(c: Config, input: seq<byte>, s: State, ops: seq<Op>, operation: seq<byte>)
    returns (ops': seq<Op>, tail': seq<byte>)
    requires 0 < c.blockSize && AtBoundary(s) && Complete(operation)
    requires AllApplicable(c, ops) && input == EncodeOps(ops) + operation
    requires s.output == Meaning(c, ops) && |s.output| <= c.limit
    requires Execute(c, s, operation).Ok?
    ensures Explains(c, input, Execute(c, s, operation).value, ops', tail')
  {
    hide EncodeOps, Meaning, OperationBytesNeeded, InBase, RunBytes, LittleEndian;
    var next := Execute(c, s, operation).value;
    if operation[0] == OP_DATA {
      ops', tail' := ExplainOpenLiteral(c, input, s, ops, operation);
    } else {
      var op := HeaderOp(operation);
      if op.OpHash? {
        ops', tail' := ops, operation;
      } else {
        ops', tail' := ops + [op], [];
        MeaningSnoc(c, ops, op);
        EncodeSnoc(ops, op);
        assert input == EncodeOps(ops') + [];
      }
    }
  }

  lemma ExplainHeaderByte(c: Config, input: seq<byte>, s: State, ops: seq<Op>, tail: seq<byte>, b: byte)
    returns (ops': seq<Op>, tail': seq<byte>)
    requires 0 < c.blockSize && Explains(c, input, s, ops, tail) && !s.seen && s.remaining == 0
    requires StepByte(c, s, b).Ok?
    ensures Explains(c, input + [b], StepByte(c, s, b).value, ops', tail')
  {
    hide EncodeOps, Meaning, AllApplicable, Execute, OperationBytesNeeded;
    var operation := s.pending + [b];
    assert input + [b] == EncodeOps(ops) + operation;
    if |operation| == OperationBytesNeeded(operation).value {
      ops', tail' := ExplainExecute(c, input + [b], s.(pending := []), ops, operation);
    } else {
      ops', tail' := ops, operation;
    }
  }

  /** Everything accepted so far can be read back as operations and a rest. */
  lemma {:induction false} RunExplained(c: Config, input: seq<byte>, s: State) returns (ops: seq<Op>, tail: seq<byte>)
    requires 0 < c.blockSize && Run(c, INITIAL, input) == Ok(s)
    ensures Explains(c, input, s, ops, tail)
    decreases |input|
  {
    if input == [] {
      ops, tail := [], [];
    } else {
      hide StepByte, Explains;
      var initial, b := input[..|input| - 1], input[|input| - 1];
      assert initial + [b] == input;
      RunSplit(c, INITIAL, initial, [b]);
      var before := Run(c, INITIAL, initial).value;
      RunOne(c, before, b);
      ops, tail := RunExplained(c, initial, before);
      SeenIsFinal(c, before, b);
      if before.remaining != 0 {
        ops, tail := ExplainLiteral(c, initial, before, ops, tail, b);
      } else {
        ops, tail := ExplainHeaderByte(c, initial, before, ops, tail, b);
      }
    }
  }

  lemma SeenIsFinal(c: Config, s: State, b: byte)
    requires 0 < c.blockSize && StepByte(c, s, b).Ok?
    ensures !s.seen
  {}

  /** What was accepted as a whole is a whole delta, and the output is what it means. */
  lemma AcceptedIsDelta(c: Config, input: seq<byte>, s: State) returns (ops: seq<Op>)
    requires 0 < c.blockSize && Run(c, INITIAL, input) == Ok(s) && s.seen
    ensures IsDelta(c, ops, input) && s == State(Meaning(c, ops), [], 0, true)
  {
    hide Run, AllApplicable, Meaning, EncodeOps, Op.Encode;
    var tail;
    ops, tail := RunExplained(c, input, s);
    EncodeSnoc(ops, OpHash(c.h.digest(Meaning(c, ops))));
  }

  /**
   * The patcher means parse-then-apply: an input is accepted exactly when it is the wire form of
   * applicable operations within the limit, followed by one checksum that matches their meaning.
   */
  lemma PatcherMeaning(c: Config, input: seq<byte>)
    requires 0 < c.blockSize
    ensures (Run(c, INITIAL, input).Ok? && Run(c, INITIAL, input).value.seen)
       <==> exists ops: seq<Op> :: IsDelta(c, ops, input)
    ensures forall ops: seq<Op> :: IsDelta(c, ops, input) ==>
              Run(c, INITIAL, input) == Ok(State(Meaning(c, ops), [], 0, true))
  {
    hide Run, IsDelta, Meaning;
    forall ops: seq<Op> | IsDelta(c, ops, input)
      ensures Run(c, INITIAL, input) == Ok(State(Meaning(c, ops), [], 0, true))
    {
      DeltaAccepted(c, ops, input);
    }
    var r := Run(c, INITIAL, input);
    if r.Ok? && r.value.seen {
      var ops := AcceptedIsDelta(c, input, r.value);
    }
  }
}
