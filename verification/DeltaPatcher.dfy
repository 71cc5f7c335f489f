/** Applying a delta: the incremental patcher and its byte-at-a-time meaning. */
module DeltaPatcher {
  import opened Bytes
  import opened ByteStreams
  import opened Signatures
  import opened DeltaFormat

  const DELTA_INPUT_SLACK_BYTES := 64 * 1024
  const COPY_BUFFER_BYTES := 32 * 1024

  /** What stays fixed while a delta is applied. */
  datatype Config = Config(h: Hashes, base: seq<byte>, blockSize: nat, limit: u64)
  {
    predicate Valid() {
      0 < blockSize <= MAX_BLOCK_BYTES && |base| < U64_LIMIT
    }
  }

  /** `output` is what was written, `pending` an incomplete header, `remaining` the literal bytes still owed. */
  datatype State = State(output: seq<byte>, pending: seq<byte>, remaining: nat, seen: bool)

  const INITIAL := State([], [], 0, false)

  /** Every block from `index` to `index + additional` exists, and the run ends below 2^64. */
  predicate InBase(c: Config, index: nat, additional: nat)
    requires 0 < c.blockSize
  {
    && index + additional < CeilDiv(|c.base|, c.blockSize)
    && (index + additional + 1) * c.blockSize < U64_LIMIT
  }

  /** A run is accepted exactly when its last block begins inside the base, short or not, and ends below 2^64. */
  lemma InBaseIff(c: Config, index: nat, additional: nat)
    requires 0 < c.blockSize
    ensures InBase(c, index, additional) <==>
              && (index + additional) * c.blockSize < |c.base|
              && (index + additional) * c.blockSize + c.blockSize < U64_LIMIT
  {
    BlockCount(|c.base|, c.blockSize);
    assert (index + additional + 1) * c.blockSize == (index + additional) * c.blockSize + c.blockSize;
    assert (index + additional) * c.blockSize < |c.base| <==> index + additional < CeilDiv(|c.base|, c.blockSize);
  }

  lemma RunBounds(c: Config, index: nat, additional: nat)
    requires 0 < c.blockSize && InBase(c, index, additional)
    ensures index * c.blockSize < |c.base|
    ensures index * c.blockSize < (index + additional + 1) * c.blockSize
  {
    BlockCount(|c.base|, c.blockSize);
    assert (index + additional) * c.blockSize < |c.base|;
    assert index * c.blockSize <= (index + additional) * c.blockSize;
    assert (index + additional + 1) * c.blockSize == (index + additional) * c.blockSize + c.blockSize;
  }

  lemma RunFits(c: Config, index: nat, additional: nat)
    requires c.Valid() && InBase(c, index, additional)
    ensures index + additional < U64_LIMIT && index * c.blockSize < U64_LIMIT
  {}

  /** The bytes of a run of blocks; the last block of the base may be short. */
  function RunBytes(c: Config, index: nat, additional: nat): seq<byte>
    requires 0 < c.blockSize && InBase(c, index, additional)
  {
    RunBounds(c, index, additional);
    c.base[index * c.blockSize..Min((index + additional + 1) * c.blockSize, |c.base|)]
  }

  /** Room left under the output limit, which may have been lowered below what is written. */
  function Room(c: Config, s: State): nat {
    SaturatingSub(c.limit, |s.output|)
  }

  function Copied(c: Config, s: State, index: nat, additional: nat): Result<State, IoError>
    requires 0 < c.blockSize
  {
    if !InBase(c, index, additional) then Err(InvalidData)
    else if |RunBytes(c, index, additional)| > Room(c, s) then Err(FileTooLarge)
    else Ok(s.(output := s.output + RunBytes(c, index, additional)))
  }

  /** How long the operation whose first bytes are `pending` is going to be, as far as they tell. */
  function OperationBytesNeeded(pending: seq<byte>): (r: Result<nat, IoError>)
    ensures r.Ok? && 3 <= |pending| && pending[0] == OP_HASH ==> FromLe16(pending[1..3]) == OUTPUT_HASH_BYTES
  {
    if pending == [] then Ok(1)
    else if pending[0] == OP_BLOCK then Ok(9)
    else if pending[0] == OP_DATA then Ok(5)
    else if pending[0] == OP_BLOCK_RANGE then Ok(13)
    else if pending[0] == OP_HASH then
      if |pending| < 3 then Ok(3)
      else if FromLe16(pending[1..3]) != OUTPUT_HASH_BYTES then Err(InvalidData)
      else Ok(3 + OUTPUT_HASH_BYTES)
    else Err(InvalidData)
  }

  /** A complete header, as the bytes that were collected for it. */
  predicate Complete(operation: seq<byte>) {
    operation != [] && OperationBytesNeeded(operation) == Ok(|operation|)
  }

  function Execute(c: Config, s: State, operation: seq<byte>): Result<State, IoError>
    requires 0 < c.blockSize && Complete(operation)
  {
    if operation[0] == OP_BLOCK then Copied(c, s, FromLe64(operation[1..9]), 0)
    else if operation[0] == OP_BLOCK_RANGE then Copied(c, s, FromLe64(operation[1..9]), FromLe32(operation[9..13]))
    else if operation[0] == OP_DATA then
      var length := FromLe32(operation[1..5]);
      if length > Room(c, s) then Err(FileTooLarge) else Ok(s.(remaining := length))
    else if c.h.digest(s.output) != operation[3..] then Err(InvalidData)
    else Ok(s.(seen := true))
  }

  /** The meaning of one input byte. */
  function StepByte(c: Config, s: State, b: byte): Result<State, IoError>
    requires 0 < c.blockSize
  {
    if s.seen then Err(InvalidData)
    else if s.remaining != 0 then
      if Room(c, s) == 0 then Err(FileTooLarge)
      else Ok(s.(output := s.output + [b], remaining := s.remaining - 1))
    else
      var operation := s.pending + [b];
      match OperationBytesNeeded(operation)
      case Err(error) => Err(error)
      case Ok(needed) =>
        if |operation| < needed then Ok(s.(pending := operation))
        else if |operation| == needed then Execute(c, s.(pending := []), operation)
        else Err(InvalidData)  // not reached from INITIAL: see HeaderGrows
  }

  /** The bytes collected so far do not make up a whole header yet. */
  predicate HeaderStarted(pending: seq<byte>) {
    pending != [] ==> OperationBytesNeeded(pending).Ok? && |pending| < OperationBytesNeeded(pending).value
  }

  lemma HeaderGrows(pending: seq<byte>, b: byte)
    requires HeaderStarted(pending)
    ensures var operation := pending + [b];
            OperationBytesNeeded(operation).Ok? ==> |operation| <= OperationBytesNeeded(operation).value
  {}

  /** The meaning of a stretch of input. */
  function Run(c: Config, s: State, input: seq<byte>): Result<State, IoError>
    requires 0 < c.blockSize
    decreases |input|
  {
    if input == [] then Ok(s) else
      match StepByte(c, s, input[0])
      case Err(error) => Err(error)
      case Ok(next) => Run(c, next, input[1..])
  }

  /** Cutting the input anywhere changes nothing. */
  lemma {:induction false} RunSplit(c: Config, s: State, input: seq<byte>, more: seq<byte>)
    requires 0 < c.blockSize
    ensures Run(c, s, input + more) ==
            match Run(c, s, input) case Err(error) => Err(error) case Ok(next) => Run(c, next, more)
    decreases |input|
  {
    hide StepByte;
    if input == [] {
      assert input + more == more;
    } else {
      assert (input + more)[1..] == input[1..] + more;
      var step := StepByte(c, s, input[0]);
      if step.Ok? {
        RunSplit(c, step.value, input[1..], more);
      }
    }
  }

  /** However the input is cut into writes, the outcome is that of the whole input. */
  function RunAll(c: Config, s: State, parts: seq<seq<byte>>): Result<State, IoError>
    requires 0 < c.blockSize
    decreases |parts|
  {
    if parts == [] then Ok(s) else
      match Run(c, s, parts[0])
      case Err(error) => Err(error)
      case Ok(next) => RunAll(c, next, parts[1..])
  }

  lemma {:induction false} SplitIndependence(c: Config, s: State, parts: seq<seq<byte>>)
    requires 0 < c.blockSize
    ensures RunAll(c, s, parts) == Run(c, s, Concat(parts))
    decreases |parts|
  {
    if parts != [] {
      hide StepByte;
      RunSplit(c, s, parts[0], Concat(parts[1..]));
      var first := Run(c, s, parts[0]);
      if first.Ok? {
        SplitIndependence(c, first.value, parts[1..]);
      }
    }
  }

  /** A literal stretch is written as a whole or refused, byte by byte or at once. */
  lemma {:induction false} RunLiteral(c: Config, s: State, chunk: seq<byte>, rest: seq<byte>)
    requires 0 < c.blockSize && !s.seen && |chunk| <= s.remaining
    ensures Run(c, s, chunk + rest) ==
            if chunk != [] && |chunk| > Room(c, s) then Err(FileTooLarge)
            else Run(c, s.(output := s.output + chunk, remaining := s.remaining - |chunk|), rest)
    decreases |chunk|
  {
    if chunk == [] {
      assert chunk + rest == rest && s.output + chunk == s.output;
    } else {
      assert (chunk + rest)[0] == chunk[0] && (chunk + rest)[1..] == chunk[1..] + rest;
      var next := s.(output := s.output + [chunk[0]], remaining := s.remaining - 1);
      assert StepByte(c, s, chunk[0]) == if Room(c, s) == 0 then Err(FileTooLarge) else Ok(next);
      RunLiteral(c, next, chunk[1..], rest);
      assert next.output + chunk[1..] == s.output + chunk;
    }
  }

  function DeltaInputLimit(outputLimit: u64): u64 {
    SaturatingAdd(Min(2 * outputLimit, U64_LIMIT - 1), DELTA_INPUT_SLACK_BYTES)
  }

  class Patcher {
    const h: Hashes
    const base: seq<byte>
    const blockSize: nat
    var outputLimit: u64
    var inputLimit: u64
    var bytesReceived: nat
    var bytesWritten: nat
    var output: seq<byte>
    var hashed: seq<byte>
    var pending: seq<byte>
    var dataRemaining: nat
    var checksumSeen: bool

    ghost predicate Valid()
      reads this
    {
      && 0 < blockSize <= MAX_BLOCK_BYTES && |base| < U64_LIMIT
      && inputLimit == DeltaInputLimit(outputLimit)
      && bytesWritten == |output| && hashed == output
      && HeaderStarted(pending) && (dataRemaining != 0 || checksumSeen ==> pending == [])
    }

    function Settings(): Config
      reads this
    {
      Config(h, base, blockSize, outputLimit)
    }

    function Progress(): State
      reads this
    {
      State(output, pending, dataRemaining, checksumSeen)
    }

    /** What a failed call leaves: never more output than the limit, unless it was there before. */
    ghost predicate Bounded(before: seq<byte>)
      reads this
    {
      && before <= output && bytesWritten == |output| && hashed == output
      && (|before| <= |output| <= outputLimit || output == before)
    }

    constructor (h: Hashes, base: seq<byte>, blockSize: nat, outputLimit: u64)
      requires 0 < blockSize <= MAX_BLOCK_BYTES && |base| < U64_LIMIT
      ensures Valid() && Progress() == INITIAL && bytesReceived == 0
      ensures Settings() == Config(h, base, blockSize, outputLimit)
    {
      this.h, this.base, this.blockSize := h, base, blockSize;
      this.outputLimit, inputLimit := outputLimit, DeltaInputLimit(outputLimit);
      bytesReceived, bytesWritten, output, hashed := 0, 0, [], [];
      pending, dataRemaining, checksumSeen := [], 0, false;
    }

    method SetOutputLimit(limit: u64)
      requires Valid()
      modifies this`outputLimit, this`inputLimit
      ensures Valid() && outputLimit == limit
    {
      outputLimit := limit;
      inputLimit := DeltaInputLimit(limit);
    }

    method WriteOutput(data: seq<byte>) returns (r: Result<(), IoError>)
      requires bytesWritten == |output| && hashed == output
      modifies this`output, this`hashed, this`bytesWritten
      ensures r == if |old(output)| + |data| <= outputLimit then Ok(()) else Err(FileTooLarge)
      ensures r.Ok? ==> output == old(output) + data && hashed == output && bytesWritten == |output|
      ensures r.Err? ==> unchanged(this)
    {
      var next := bytesWritten + |data|;
      if next > outputLimit {
        return Err(FileTooLarge);
      }
      output := output + data;
      hashed := hashed + data;
      bytesWritten := next;
      return Ok(());
    }

    /** Copy a stretch of the base through a bounded buffer. */
    method CopyRange(offset: nat, length: nat) returns (r: Result<(), IoError>)
      requires bytesWritten == |output| && hashed == output && offset + length <= |base|
      modifies this`output, this`hashed, this`bytesWritten
      ensures bytesWritten == |output| && hashed == output
      ensures length <= SaturatingSub(outputLimit, |old(output)|) ==> r.Ok?
      ensures r.Ok? ==> output == old(output) + base[offset..offset + length]
    {
      var remaining := length;
      while remaining != 0
        invariant 0 <= remaining <= length
        invariant bytesWritten == |output| && hashed == output
        invariant output == old(output) + base[offset..offset + length - remaining]
      {
        var start := offset + length - remaining;
        var requested := Min(remaining, COPY_BUFFER_BYTES);
        r := WriteOutput(base[start..start + requested]);
        if r.Err? {
          return r;
        }
        assert base[offset..start] + base[start..start + requested] == base[offset..start + requested];
        remaining := remaining - requested;
      }
      return Ok(());
    }

    /** The guards in front of a copy; what they let through is in the base and fits. */
    method CheckBlocks(index: u64, additional: u32) returns (r: Result<(nat, nat), IoError>)
      requires Valid()
      ensures match Copied(Settings(), Progress(), index, additional)
              case Err(error) => r == Err(error)
              case Ok(next) =>
                && r.Ok? && r.value.0 + r.value.1 <= |base| && r.value.1 <= SaturatingSub(outputLimit, |output|)
                && next == Progress().(output := output + base[r.value.0..r.value.0 + r.value.1])
    {
      ghost var c := Settings();
      if InBase(c, index, additional) {
        RunFits(c, index, additional);
        RunBounds(c, index, additional);
      }
      var endIndex := index + additional;
      if endIndex >= U64_LIMIT {
        return Err(InvalidData);
      }
      var offset := index * blockSize;
      if offset >= U64_LIMIT {
        return Err(InvalidData);
      }
      var blockCount := CeilDiv(|base|, blockSize);
      if endIndex >= blockCount {
        return Err(InvalidData);
      }
      var past := (endIndex + 1) * blockSize;
      if past >= U64_LIMIT {
        return Err(InvalidData);
      }
      // kitty_rsync.rs:367 refuses an offset past the base once more, which the block count has ruled out.
      var end := Min(past, |base|);
      var length := end - offset;
      if length > SaturatingSub(outputLimit, bytesWritten) {
        return Err(FileTooLarge);
      }
      return Ok((offset, length));
    }

    method CopyBlocks(index: u64, additional: u32) returns (r: Result<(), IoError>)
      requires Valid()
      modifies this`output, this`hashed, this`bytesWritten
      ensures Valid()
      ensures Copied(Settings(), old(Progress()), index, additional) == if r.Ok? then Ok(Progress()) else Err(r.error)
      ensures r.Err? ==> output == old(output)
      ensures Bounded(old(output))
    {
      var checked := CheckBlocks(index, additional);
      hide Copied;
      if checked.Err? {
        return Err(checked.error);
      }
      r := CopyRange(checked.value.0, checked.value.1);
      assert checked.value.1 == 0 ==> output == old(output);
    }

    method ExecuteOperation(operation: seq<byte>) returns (r: Result<(), IoError>)
      requires Valid() && pending == [] && dataRemaining == 0 && !checksumSeen && Complete(operation)
      modifies this`output, this`hashed, this`bytesWritten, this`dataRemaining, this`checksumSeen
      ensures Valid()
      ensures Execute(Settings(), old(Progress()), operation) == if r.Ok? then Ok(Progress()) else Err(r.error)
      ensures r.Err? ==> output == old(output)
      ensures Bounded(old(output))
    {
      hide Copied, DeltaInputLimit;
      if operation[0] == OP_BLOCK {
        r := CopyBlocks(FromLe64(operation[1..9]), 0);
      } else if operation[0] == OP_BLOCK_RANGE {
        r := CopyBlocks(FromLe64(operation[1..9]), FromLe32(operation[9..13]));
      } else if operation[0] == OP_DATA {
        dataRemaining := FromLe32(operation[1..5]);
        if dataRemaining > SaturatingSub(outputLimit, bytesWritten) {
          return Err(FileTooLarge);
        }
        return Ok(());
      } else {
        // The length field was checked when the header was collected.
        if h.digest(hashed) != operation[3..] {
          return Err(InvalidData);
        }
        checksumSeen := true;
        return Ok(());
      }
    }

    /** One step of the input loop: a literal stretch, or one byte of a header. */
    method ConsumeSome(input: seq<byte>) returns (r: Result<(), IoError>, rest: seq<byte>)
      requires Valid() && input != [] && !checksumSeen
      modifies this`output, this`hashed, this`bytesWritten, this`dataRemaining, this`checksumSeen, this`pending
      ensures |rest| < |input|
      ensures r.Ok? ==> Valid() && Run(Settings(), old(Progress()), input) == Run(Settings(), Progress(), rest)
      ensures r.Err? ==> Run(Settings(), old(Progress()), input) == Err(r.error)
      ensures Bounded(old(output))
    {
      hide Execute, DeltaInputLimit, OperationBytesNeeded;
      if dataRemaining != 0 {
        var length := Min(dataRemaining, |input|);
        rest := input[length..];
        assert input[..length] + rest == input;
        RunLiteral(Settings(), Progress(), input[..length], rest);
        r := WriteOutput(input[..length]);
        if r.Ok? {
          dataRemaining := dataRemaining - length;
        }
        return;
      }
      HeaderGrows(pending, input[0]);
      ghost var before := Progress();
      var operation := pending + [input[0]];
      rest := input[1..];
      var needed := OperationBytesNeeded(operation);
      if needed.Err? {
        return Err(needed.error), rest;
      }
      if |operation| < needed.value {
        pending := operation;
        return Ok(()), rest;
      }
      pending := [];
      assert Progress() == before.(pending := []);
      r := ExecuteOperation(operation);
    }

    method Consume(input: seq<byte>) returns (r: Result<(), IoError>)
      requires Valid()
      modifies this`output, this`hashed, this`bytesWritten, this`dataRemaining, this`checksumSeen, this`pending
      ensures r.Ok? ==> Valid()
      ensures Run(Settings(), old(Progress()), input) == if r.Ok? then Ok(Progress()) else Err(r.error)
      ensures Bounded(old(output))
    {
      hide DeltaInputLimit, HeaderStarted;
      if checksumSeen && input != [] {
        return Err(InvalidData);
      }
      var rest := input;
      while rest != []
        invariant Valid() && Run(Settings(), old(Progress()), input) == Run(Settings(), Progress(), rest)
        invariant Bounded(old(output))
        invariant checksumSeen ==> rest == []
        decreases |rest|
      {
        r, rest := ConsumeSome(rest);
        if r.Err? {
          return r;
        }
        if checksumSeen && rest != [] {
          return Err(InvalidData);
        }
      }
      return Ok(());
    }

    /** The writer's entry point: the whole input counts against the input limit before any of it is used. */
    method Write(input: seq<byte>) returns (r: Result<nat, IoError>)
      requires Valid()
      modifies this`output, this`hashed, this`bytesWritten, this`dataRemaining, this`checksumSeen, this`pending,
        this`bytesReceived
      ensures r.Ok? <==> old(bytesReceived) + |input| <= inputLimit && Run(Settings(), old(Progress()), input).Ok?
      ensures r.Ok? ==> Valid() && Run(Settings(), old(Progress()), input) == Ok(Progress())
      ensures r.Ok? ==> bytesReceived == old(bytesReceived) + |input| && r.value == |input|
      ensures r.Err? ==> r.error == if old(bytesReceived) + |input| > inputLimit then FileTooLarge
                                    else Run(Settings(), old(Progress()), input).error
      ensures Bounded(old(output))
    {
      var received := bytesReceived + |input|;
      if received > inputLimit {
        return Err(FileTooLarge);
      }
      var consumed := Consume(input);
      if consumed.Err? {
        return Err(consumed.error);
      }
      bytesReceived := received;
      return Ok(|input|);
    }

    method Finish() returns (r: Result<seq<byte>, IoError>)
      requires Valid()
      ensures r.Ok? <==> && |output| <= outputLimit && bytesReceived <= inputLimit
                         && dataRemaining == 0 && pending == [] && checksumSeen
      ensures r.Ok? ==> r.value == output
      ensures r.Err? ==>
                r.error == if |output| > outputLimit || bytesReceived > inputLimit then FileTooLarge else UnexpectedEof
    {
      if bytesWritten > outputLimit {
        return Err(FileTooLarge);
      }
      if bytesReceived > inputLimit {
        return Err(FileTooLarge);
      }
      if dataRemaining != 0 || pending != [] {
        return Err(UnexpectedEof);
      }
      if !checksumSeen {
        return Err(UnexpectedEof);
      }
      return Ok(output);
    }
  }
}
