/** A delta on its way through the patcher into a staging file that may stop taking bytes. */
module StagedDeltas {
  import opened Bytes
  import opened ByteStreams
  import opened DeltaPatcher

  const COPY_BUFFER_BYTES := 32 * 1024

  datatype WriteError = SizeLimit | BadStream | Disk

  /** The patcher after the whole input, or what it has counted as written when it stops, and why. */
  datatype FeedResult = Fed(state: State) | Stuck(written: nat, error: WriteError)

  /** Copied blocks are written a buffer at a time; a buffer that does not go out whole is not counted. */
  function WholeBuffers(room: nat): (bytes: nat)
    ensures bytes <= room
  {
    room / COPY_BUFFER_BYTES * COPY_BUFFER_BYTES
  }

  /** The staging file ends up with at most `sink` bytes and then fails with `sinkError`. */
  function Feed(c: Config, sink: nat, sinkError: WriteError, s: State, input: seq<byte>): FeedResult
    requires 0 < c.blockSize
    decreases |input|
  {
    if input == [] then Fed(s)
    else if s.remaining != 0 && !s.seen then
      var length := Min(s.remaining, |input|);
      if length > Room(c, s) then Stuck(|s.output|, SizeLimit)
      else if |s.output| + length > sink then Stuck(|s.output|, sinkError)
      else Feed(c, sink, sinkError, s.(output := s.output + input[..length], remaining := s.remaining - length),
                input[length..])
    else
      match StepByte(c, s, input[0])
      case Err(error) => Stuck(|s.output|, if error.FileTooLarge? then SizeLimit else BadStream)
      case Ok(next) =>
        if |s.output| < |next.output| && |next.output| > sink
        then Stuck(|s.output| + WholeBuffers(SaturatingSub(sink, |s.output|)), sinkError)
        else Feed(c, sink, sinkError, next, input[1..])
  }

  lemma StepBounded(c: Config, s: State, b: byte)
    requires 0 < c.blockSize && StepByte(c, s, b).Ok?
    ensures var t := StepByte(c, s, b).value;
            |s.output| <= |t.output| && (|t.output| <= c.limit || t.output == s.output)
  {
    hide InBase, RunBytes, OperationBytesNeeded;
  }

  lemma {:induction false} RunBounded(c: Config, s: State, input: seq<byte>)
    requires 0 < c.blockSize && Run(c, s, input).Ok?
    ensures var t := Run(c, s, input).value;
            |s.output| <= |t.output| && (|t.output| <= c.limit || |t.output| == |s.output|)
    decreases |input|
  {
    hide StepByte;
    if input != [] {
      StepBounded(c, s, input[0]);
      RunBounded(c, StepByte(c, s, input[0]).value, input[1..]);
    }
  }

  /** The input goes through exactly when the patcher takes it and its output stays within the staging file. */
  lemma {:induction false} FeedIff(c: Config, sink: nat, sinkError: WriteError, s: State, input: seq<byte>)
    requires 0 < c.blockSize
    ensures var r, run := Feed(c, sink, sinkError, s, input), Run(c, s, input);
            && (r.Fed? <==> run.Ok? && (|run.value.output| <= sink || |run.value.output| == |s.output|))
            && (r.Fed? ==> r.state == run.value)
    decreases |input|
  {
    hide StepByte;
    if input != [] {
      if s.remaining != 0 && !s.seen {
        FeedLiteralIff(c, sink, sinkError, s, input);
      } else {
        var step := StepByte(c, s, input[0]);
        if step.Ok? {
          StepBounded(c, s, input[0]);
          FeedIff(c, sink, sinkError, step.value, input[1..]);
          if Run(c, step.value, input[1..]).Ok? {
            RunBounded(c, step.value, input[1..]);
          }
        }
      }
    }
  }

  lemma {:induction false} FeedLiteralIff(c: Config, sink: nat, sinkError: WriteError, s: State, input: seq<byte>)
    requires 0 < c.blockSize && input != [] && s.remaining != 0 && !s.seen
    ensures var r, run := Feed(c, sink, sinkError, s, input), Run(c, s, input);
            && (r.Fed? <==> run.Ok? && (|run.value.output| <= sink || |run.value.output| == |s.output|))
            && (r.Fed? ==> r.state == run.value)
    decreases |input|, 0
  {
    hide StepByte, Run;
    var length := Min(s.remaining, |input|);
    var chunk, rest := input[..length], input[length..];
    assert chunk + rest == input;
    RunLiteral(c, s, chunk, rest);
    if length <= Room(c, s) {
      var next := s.(output := s.output + chunk, remaining := s.remaining - length);
      FeedIff(c, sink, sinkError, next, rest);
      if Run(c, next, rest).Ok? {
        RunBounded(c, next, rest);
      }
    }
  }

  /** What a stopped patcher counts never shrinks, and grows only within its limit. */
  lemma {:induction false} StuckBounded(c: Config, sink: nat, sinkError: WriteError, s: State, input: seq<byte>)
    requires 0 < c.blockSize && Feed(c, sink, sinkError, s, input).Stuck?
    ensures var written := Feed(c, sink, sinkError, s, input).written;
            |s.output| <= written && (written <= c.limit || written == |s.output|)
    decreases |input|
  {
    hide StepByte, WholeBuffers;
    if s.remaining != 0 && !s.seen {
      var length := Min(s.remaining, |input|);
      if length <= Room(c, s) && |s.output| + length <= sink {
        StuckBounded(c, sink, sinkError, s.(output := s.output + input[..length],
                                            remaining := s.remaining - length), input[length..]);
      }
    } else if StepByte(c, s, input[0]).Ok? {
      var next := StepByte(c, s, input[0]).value;
      StepBounded(c, s, input[0]);
      if !(|s.output| < |next.output| && |next.output| > sink) {
        StuckBounded(c, sink, sinkError, next, input[1..]);
      }
    }
  }
}
