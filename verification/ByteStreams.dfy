/** Readers, writers and the foreign hash functions, as the rsync code sees them. */
module ByteStreams {
  import opened Bytes

  datatype IoError = InvalidData | UnexpectedEof | FileTooLarge

  type OutputHash = s: seq<byte> | |s| == 16 witness seq(16, _ => 0)

  /** XXH3-64 of a block and big-endian XXH3-128 of a whole stream, left uninterpreted. */
  datatype Hashes = Hashes(strong: seq<byte> -> u64, digest: seq<byte> -> OutputHash)

  /** A reader that returns any non-empty part of what was asked for until its data runs out. */
  class ByteSource {
    const data: seq<byte>
    var position: nat

    ghost predicate Valid()
      reads this
    {
      position <= |data|
    }

    constructor (data: seq<byte>)
      ensures Valid() && this.data == data && position == 0
    {
      this.data := data;
      position := 0;
    }

    method Read(buffer: array<byte>, start: nat) returns (length: nat)
      requires Valid() && start < buffer.Length
      modifies this, buffer
      ensures Valid() && position == old(position) + length && start + length <= buffer.Length
      ensures length == 0 <==> old(position) == |data|
      ensures buffer[..] == old(buffer[..start]) + data[old(position)..position] + old(buffer[start + length..])
    {
      if position == |data| {
        return 0;
      }
      var most := Min(|data| - position, buffer.Length - start);
      length :| 1 <= length <= most;
      forall k | start <= k < start + length {
        buffer[k] := data[position + k - start];
      }
      position := position + length;
    }
  }

  /** Fill `buffer` from its start; a short count means that the source has ended. */
  method ReadUpTo(source: ByteSource, buffer: array<byte>) returns (filled: nat)
    requires source.Valid()
    modifies source, buffer
    ensures source.Valid() && source.position == old(source.position) + filled
    ensures filled == Min(buffer.Length, |source.data| - old(source.position))
    ensures buffer[..filled] == source.data[old(source.position)..source.position]
    ensures buffer[filled..] == old(buffer[filled..])
  {
    filled := 0;
    while filled < buffer.Length
      invariant filled <= buffer.Length && source.Valid()
      invariant source.position == old(source.position) + filled
      invariant buffer[..filled] == source.data[old(source.position)..source.position]
      invariant buffer[filled..] == old(buffer[filled..])
      decreases |source.data| - source.position, buffer.Length - filled
    {
      label before:
      var length := source.Read(buffer, filled);
      if length == 0 {
        break;
      }
      assert buffer[..filled + length] == old@before(buffer[..filled])
        + source.data[old@before(source.position)..source.position];
      assert buffer[filled + length..] == old@before(buffer[filled + length..]);
      filled := filled + length;
      assert buffer[filled..] == old(buffer[filled - length..])[length..];
    }
  }
}
