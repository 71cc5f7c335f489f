/** OSC 5113 commands, as records; protocol text is its UTF-8 bytes. */
module TransferCommands {
  import opened Bytes

  const MAX_FILE_TRANSFER_CHUNK_BYTES := 4096
  const MAX_FILE_TRANSFER_PATH_BYTES := 4096

  type Text = seq<byte>

  datatype FileTransferAction =
    Send | File | Data | EndData | Receive | Cancel | Status | Finish | Finished

  datatype FileTransferCompression = NoCompression | Zlib

  datatype FileTransferType = Regular | Directory | Symlink | Link

  datatype FileTransmissionType = Simple | Rsync

  datatype FileTransferCommand = FileTransferCommand(
    action: FileTransferAction,
    id: Text,
    fileId: Option<Text>,
    quiet: byte,
    size: Option<u64>,
    name: Option<Text>,
    data: seq<byte>,
    compression: Option<FileTransferCompression>,
    fileType: Option<FileTransferType>,
    transmissionType: Option<FileTransmissionType>)

  /** The pieces of `path` between `separator`s; there is always at least one. */
  function Split(path: seq<byte>, separator: byte): (parts: seq<seq<byte>>)
    ensures parts != []
  {
    if path == [] then [[]] else
      var rest := Split(path[1..], separator);
      if path[0] == separator then [[]] + rest else [[path[0]] + rest[0]] + rest[1..]
  }

  lemma {:induction false} SplitAt(a: seq<byte>, separator: byte, b: seq<byte>)
    ensures Split(a + [separator] + b, separator) == Split(a, separator) + Split(b, separator)
    decreases |a|
  {
    var all := a + [separator] + b;
    if a == [] {
      assert all[1..] == b;
    } else {
      assert all[1..] == a[1..] + [separator] + b;
      SplitAt(a[1..], separator, b);
    }
  }

  lemma {:induction false} SplitWhole(a: seq<byte>, separator: byte)
    requires separator !in a
    ensures Split(a, separator) == [a]
    decreases |a|
  {
    if a != [] {
      SplitWhole(a[1..], separator);
      assert [a[0]] + a[1..] == a;
    }
  }

  const SLASH: byte := 47
  const DOT: byte := 46

  predicate ValidPathPart(part: seq<byte>) {
    |part| <= 255 && part != [DOT] && part != [DOT, DOT]
  }

  predicate ValidProtocolPath(path: Text) {
    && path != [] && |path| <= MAX_FILE_TRANSFER_PATH_BYTES && 0 !in path
    && forall part :: part in Split(path, SLASH) ==> ValidPathPart(part)
  }

  /** A status reply is dropped when the peer asked for quiet, errors only at the highest level. */
  predicate Spoken(quiet: byte, isError: bool) {
    !(quiet >= 2 || (quiet == 1 && !isError))
  }
}
