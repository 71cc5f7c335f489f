/** Serialized rsync signatures: writing, parsing and looking up blocks. */
module Signatures {
  import opened Bytes
  import opened ByteStreams
  import opened RollingChecksums

  const SIGNATURE_HEADER_BYTES := 12
  const BLOCK_HASH_BYTES := 20
  const HASH_BLOCK_BYTES := 64
  const MAX_BLOCK_BYTES := 1024 * 1024

  datatype BlockRecord = BlockRecord(index: u64, weak: u32, strong: u64)

  function EncodeRecord(r: BlockRecord): (s: seq<byte>)
    ensures |s| == BLOCK_HASH_BYTES
  {
    Le64(r.index) + Le32(r.weak) + Le64(r.strong)
  }

  function DecodeRecord(s: seq<byte>): (r: BlockRecord)
    requires |s| == BLOCK_HASH_BYTES
    ensures EncodeRecord(r) == s
  {
    BlockRecord(FromLe64(s[..8]), FromLe32(s[8..12]), FromLe64(s[12..]))
  }

  lemma RecordRoundTrip(r: BlockRecord)
    ensures DecodeRecord(EncodeRecord(r)) == r
  {
    var s := EncodeRecord(r);
    assert s[..8] == Le64(r.index) && s[8..12] == Le32(r.weak) && s[12..] == Le64(r.strong);
    Le64RoundTrip(r.index); Le32RoundTrip(r.weak); Le64RoundTrip(r.strong);
  }

  function EncodeRecords(records: seq<BlockRecord>): (s: seq<byte>)
    ensures |s| == BLOCK_HASH_BYTES * |records|
  {
    if records == [] then [] else EncodeRecords(records[..|records| - 1]) + EncodeRecord(records[|records| - 1])
  }

  lemma {:induction false} EncodedRecordAt(records: seq<BlockRecord>, k: nat)
    requires k < |records|
    ensures EncodeRecords(records)[BLOCK_HASH_BYTES * k..BLOCK_HASH_BYTES * (k + 1)] == EncodeRecord(records[k])
  {
    var initial := EncodeRecords(records[..|records| - 1]);
    assert EncodeRecords(records) == initial + EncodeRecord(records[|records| - 1]);
    if k < |records| - 1 {
      EncodedRecordAt(records[..|records| - 1], k);
      assert EncodeRecords(records)[BLOCK_HASH_BYTES * k..BLOCK_HASH_BYTES * (k + 1)]
          == initial[BLOCK_HASH_BYTES * k..BLOCK_HASH_BYTES * (k + 1)];
    }
  }

  /** The index of the first record with these two hashes. */
  function FirstIndex(records: seq<BlockRecord>, weak: u32, strong: u64): Option<u64> {
    if records == [] then None else
      var earlier := FirstIndex(records[..|records| - 1], weak, strong);
      var last := records[|records| - 1];
      if earlier.Some? then earlier
      else if last.weak == weak && last.strong == strong then Some(last.index)
      else None
  }

  lemma {:induction false} FirstIndexIsLeast(records: seq<BlockRecord>, weak: u32, strong: u64) returns (k: nat)
    ensures k <= |records|
    ensures forall j :: 0 <= j < k ==> !(records[j].weak == weak && records[j].strong == strong)
    ensures k < |records| ==> records[k].weak == weak && records[k].strong == strong
    ensures FirstIndex(records, weak, strong) == if k < |records| then Some(records[k].index) else None
  {
    if records == [] {
      k := 0;
    } else {
      k := FirstIndexIsLeast(records[..|records| - 1], weak, strong);
      var last := records[|records| - 1];
      if k == |records| - 1 && !(last.weak == weak && last.strong == strong) {
        k := |records|;
      }
    }
  }

  /** Block `k` of a file cut into pieces of `size` bytes; only the last may be shorter. */
  function Block(data: seq<byte>, size: nat, k: nat): (b: seq<byte>)
    requires 0 < size && k * size < |data|
    ensures 0 < |b| <= size
  {
    data[k * size..Min((k + 1) * size, |data|)]
  }

  lemma BlockCount(length: nat, size: nat)
    requires 0 < size
    ensures forall k: nat {:trigger k * size} :: k < CeilDiv(length, size) <==> k * size < length
  {
    forall k: nat ensures k < CeilDiv(length, size) <==> k * size < length {
      BlockCountAt(length, size, k);
    }
  }

  lemma BlockCountAt(length: nat, size: nat, k: nat)
    requires 0 < size
    ensures k < CeilDiv(length, size) <==> k * size < length
  {
    var q := length / size;
    assert length == size * q + length % size;
    if k < q {
      Multiples(k + 1, q, size);
    } else if q < k {
      Multiples(q + 1, k, size);
    }
  }

  lemma Multiples(few: nat, many: nat, size: nat)
    requires few <= many
    ensures few * size <= many * size && (few - 1) * size == few * size - size
  {
    assert (many - few) * size >= 0;
  }

  function RecordOf(h: Hashes, data: seq<byte>, size: nat, k: nat): BlockRecord
    requires 0 < size && k * size < |data| && k < U64_LIMIT
  {
    BlockRecord(k, Checksum(Block(data, size, k)), h.strong(Block(data, size, k)))
  }

  lemma IndexFits(length: nat, size: nat, k: nat)
    requires 0 < size && k * size < length
    ensures k < length
  {}

  /** The records of the first `count` blocks of `data`. */
  function HonestRecords(h: Hashes, data: seq<byte>, size: nat, count: nat): (records: seq<BlockRecord>)
    requires 0 < size && |data| < U64_LIMIT && count <= CeilDiv(|data|, size)
    ensures |records| == count
  {
    if count == 0 then [] else
      BlockCount(|data|, size);
      assert (count - 1) * size < |data|;
      IndexFits(|data|, size, count - 1);
      HonestRecords(h, data, size, count - 1) + [RecordOf(h, data, size, count - 1)]
  }

  lemma {:induction false} HonestRecordAt(h: Hashes, data: seq<byte>, size: nat, count: nat, k: nat)
    requires 0 < size && |data| < U64_LIMIT && k < count <= CeilDiv(|data|, size)
    ensures k * size < |data| && k < U64_LIMIT
    ensures HonestRecords(h, data, size, count)[k] == RecordOf(h, data, size, k)
  {
    BlockCount(|data|, size);
    assert k * size < |data|;
    IndexFits(|data|, size, k);
    if k < count - 1 {
      HonestRecordAt(h, data, size, count - 1, k);
    }
  }

  function AllRecords(h: Hashes, data: seq<byte>, size: nat): seq<BlockRecord>
    requires 0 < size && |data| < U64_LIMIT
  {
    HonestRecords(h, data, size, CeilDiv(|data|, size))
  }

  const ZERO_HEADER: seq<byte> := [0, 0, 0, 0, 0, 0, 0, 0]

  /** The serialized signature of `data`. */
  function SignatureBytes(h: Hashes, data: seq<byte>, size: u32): seq<byte>
    requires 0 < size && |data| < U64_LIMIT
  {
    ZERO_HEADER + Le32(size) + EncodeRecords(AllRecords(h, data, size))
  }

  /** The written length, which no signature of a supported block size overflows. */
  lemma SignatureLength(h: Hashes, data: seq<byte>, size: u32)
    requires 0 < size && |data| < U64_LIMIT
    ensures |SignatureBytes(h, data, size)| == SIGNATURE_HEADER_BYTES + BLOCK_HASH_BYTES * CeilDiv(|data|, size)
    ensures HASH_BLOCK_BYTES <= size ==> |SignatureBytes(h, data, size)| < U64_LIMIT
  {
    if HASH_BLOCK_BYTES <= size {
      FewBlocks(|data|, size);
    }
  }

  lemma FewBlocks(length: nat, size: nat)
    requires HASH_BLOCK_BYTES <= size
    ensures CeilDiv(length, size) <= length / HASH_BLOCK_BYTES + 1
  {
    var q := length / size;
    assert q * HASH_BLOCK_BYTES <= q * size <= length;
  }

  /** Parsing a written signature succeeds and indexes exactly the blocks it was written for. */
  lemma ParseWritten(h: Hashes, data: seq<byte>, size: u32)
    requires 0 < size <= MAX_BLOCK_BYTES && |data| < U64_LIMIT
    ensures var s := SignatureBytes(h, data, size);
            WellFormed(s, |s|) && FromLe32(s[8..12]) == size && DecodeRecords(s[12..]) == AllRecords(h, data, size)
  {
    hide SignatureBytes, EncodeRecords, AllRecords, DecodeRecords, FromLittleEndian, LittleEndian;
    SignatureParts(h, data, size);
    Le32RoundTrip(size);
    DecodeEncodedRecords(AllRecords(h, data, size));
  }

  lemma SignatureParts(h: Hashes, data: seq<byte>, size: u32)
    requires 0 < size && |data| < U64_LIMIT
    ensures var s, body := SignatureBytes(h, data, size), EncodeRecords(AllRecords(h, data, size));
            |s| == 12 + |body| && s[..8] == ZERO_HEADER && s[8..12] == Le32(size) && s[12..] == body
  {
    hide EncodeRecords, AllRecords, LittleEndian;
  }

  /* ---- The written bytes, field by field ---- */

  /** The twenty bytes of block `k`: its index, its two sums and its strong hash. */
  ghost predicate BlockLaidOut(h: Hashes, data: seq<byte>, size: nat, k: nat, s: seq<byte>) {
    var at := SIGNATURE_HEADER_BYTES + BLOCK_HASH_BYTES * k;
    && 0 < size && k * size < |data| && at + BLOCK_HASH_BYTES <= |s|
    && var b := data[k * size..Min((k + 1) * size, |data|)];
       && U64(s[at..at + 8]) == k
       && U16(s[at + 8..at + 10]) == ByteSum(b, |b|) % 0x1_0000
       && U16(s[at + 10..at + 12]) == PositionSum(b, |b|) % 0x1_0000
       && U64(s[at + 12..at + 20]) == h.strong(b)
  }

  /** A header of zeros and the block size, then one record for each block and nothing else. */
  ghost predicate LaidOut(h: Hashes, data: seq<byte>, size: nat, s: seq<byte>) {
    && 0 < size && |s| == SIGNATURE_HEADER_BYTES + BLOCK_HASH_BYTES * CeilDiv(|data|, size)
    && s[..8] == [0, 0, 0, 0, 0, 0, 0, 0] && U32(s[8..12]) == size
    && forall k: nat :: k < CeilDiv(|data|, size) ==> BlockLaidOut(h, data, size, k, s)
  }

  lemma SubField(s: seq<byte>, at: nat, record: seq<byte>, start: nat, end: nat)
    requires at + |record| <= |s| && s[at..at + |record|] == record && start <= end <= |record|
    ensures s[at + start..at + end] == record[start..end]
  {
    forall k | 0 <= k < end - start
      ensures s[at + start..at + end][k] == record[start..end][k]
    {
      assert s[at..at + |record|][start + k] == s[at + start + k];
    }
  }

  lemma RecordLaidOut(h: Hashes, data: seq<byte>, size: nat, k: nat, s: seq<byte>)
    requires 0 < size && k * size < |data| && k < U64_LIMIT
    requires var at := SIGNATURE_HEADER_BYTES + BLOCK_HASH_BYTES * k;
             at + BLOCK_HASH_BYTES <= |s| && s[at..at + BLOCK_HASH_BYTES] == EncodeRecord(RecordOf(h, data, size, k))
    ensures BlockLaidOut(h, data, size, k, s)
  {
    hide LittleEndian, ByteSum, PositionSum, Checksum, U16, U64;
    var at := SIGNATURE_HEADER_BYTES + BLOCK_HASH_BYTES * k;
    var b := Block(data, size, k);
    var record := s[at..at + BLOCK_HASH_BYTES];
    assert s[at..at + 8] == record[..8] == Le64(k);
    assert record[8..12] == Le32(Checksum(b)) && record[12..] == Le64(h.strong(b));
    var weak := record[8..12];
    SubField(s, at, record, 8, 10);
    SubField(s, at, record, 10, 12);
    SubField(s, at, record, 12, 20);
    assert record[8..10] == weak[..2] && record[10..12] == weak[2..] && record[12..20] == record[12..];
    EncodedFields(k);
    EncodedFields(h.strong(b));
    ChecksumFields(b);
  }

  /** What a reader of the format finds in a written signature. */
  lemma SignatureLaidOut(h: Hashes, data: seq<byte>, size: u32)
    requires 0 < size && |data| < U64_LIMIT
    ensures LaidOut(h, data, size, SignatureBytes(h, data, size))
  {
    hide SignatureBytes, EncodeRecord, EncodeRecords, RecordOf, LittleEndian, U32, BlockLaidOut;
    var s, records := SignatureBytes(h, data, size), AllRecords(h, data, size);
    SignatureParts(h, data, size);
    EncodedFields(size);
    forall k: nat | k < CeilDiv(|data|, size)
      ensures BlockLaidOut(h, data, size, k, s)
    {
      HonestRecordAt(h, data, size, |records|, k);
      EncodedRecordAt(records, k);
      var at := SIGNATURE_HEADER_BYTES + BLOCK_HASH_BYTES * k;
      assert s[at..at + BLOCK_HASH_BYTES] == s[12..][BLOCK_HASH_BYTES * k..BLOCK_HASH_BYTES * (k + 1)];
      RecordLaidOut(h, data, size, k, s);
    }
  }

  /** An indexed signature: block index by weak checksum, then by strong hash. */
  datatype Signature = Signature(blockSize: nat, blocks: map<u32, map<u64, u64>>)
  {
    function Lookup(weak: u32, strong: u64): Option<u64> {
      if weak in blocks && strong in blocks[weak] then Some(blocks[weak][strong]) else None
    }

    function Find(h: Hashes, weak: u32, window: seq<byte>): Option<u64> {
      Lookup(weak, h.strong(window))
    }

    /** What the streaming matcher asks about a window: its fresh checksum and strong hash. */
    function Match(h: Hashes, window: seq<byte>): Option<u64> {
      Find(h, Checksum(window), window)
    }

    /** The lookup table agrees with these records. */
    ghost predicate Indexes(records: seq<BlockRecord>) {
      forall weak: u32, strong: u64 :: Lookup(weak, strong) == FirstIndex(records, weak, strong)
    }

    /** The signature describes exactly the blocks of `data`. */
    ghost predicate Honest(h: Hashes, data: seq<byte>) {
      0 < blockSize && |data| < U64_LIMIT && Indexes(AllRecords(h, data, blockSize))
    }
  }

  /** A header followed by a whole number of records. */
  predicate WholeRecords(length: nat) {
    SIGNATURE_HEADER_BYTES <= length && (length - SIGNATURE_HEADER_BYTES) % BLOCK_HASH_BYTES == 0
  }

  predicate WellFormed(data: seq<byte>, maxBytes: nat) {
    && |data| <= maxBytes && WholeRecords(|data|)
    && data[..8] == ZERO_HEADER
    && 0 < FromLe32(data[8..12]) <= MAX_BLOCK_BYTES
  }

  /** A signature has a zero header, a supported block size, and nothing after its 12 bytes but whole records. */
  lemma WellFormedIff(data: seq<byte>, maxBytes: nat)
    ensures WellFormed(data, maxBytes) <==>
              && 12 <= |data| <= maxBytes && (|data| - 12) % 20 == 0
              && (forall i :: 0 <= i < 8 ==> data[i] == 0)
              && 1 <= U32(data[8..12]) <= 1024 * 1024
  {
    hide FromLittleEndian, U32;
    if 12 <= |data| {
      DecodedFields(data[8..12]);
      assert data[..8] == ZERO_HEADER <==> forall i :: 0 <= i < 8 ==> data[i] == 0;
    }
  }

  function DecodeRecords(data: seq<byte>): (records: seq<BlockRecord>)
    requires |data| % BLOCK_HASH_BYTES == 0
    ensures EncodeRecords(records) == data
  {
    if data == [] then [] else
      var cut := |data| - BLOCK_HASH_BYTES;
      DecodeRecords(data[..cut]) + [DecodeRecord(data[cut..])]
  }

  lemma {:induction false} DecodeEncodedRecords(records: seq<BlockRecord>)
    ensures DecodeRecords(EncodeRecords(records)) == records
  {
    var data := EncodeRecords(records);
    if records != [] {
      var cut := |data| - BLOCK_HASH_BYTES;
      assert data[..cut] == EncodeRecords(records[..|records| - 1]);
      assert data[cut..] == EncodeRecord(records[|records| - 1]);
      DecodeEncodedRecords(records[..|records| - 1]);
      RecordRoundTrip(records[|records| - 1]);
    }
  }

  lemma {:induction false} DecodedRecordAt(data: seq<byte>, k: nat)
    requires |data| % BLOCK_HASH_BYTES == 0 && BLOCK_HASH_BYTES * (k + 1) <= |data|
    ensures |DecodeRecords(data)| == |data| / BLOCK_HASH_BYTES
    ensures var record := DecodeRecord(data[BLOCK_HASH_BYTES * k..BLOCK_HASH_BYTES * (k + 1)]);
            DecodeRecords(data)[..k + 1] == DecodeRecords(data)[..k] + [record]
  {
    var records := DecodeRecords(data);
    EncodedRecordAt(records, k);
    RecordRoundTrip(records[k]);
  }

  /** The version and the three algorithm numbers, two bytes each, must all be zero. */
  method VersionsAreZero(data: seq<byte>) returns (zero: bool)
    requires 8 <= |data|
    ensures zero <==> data[..8] == ZERO_HEADER
  {
    var offset := 0;
    while offset < 8
      invariant 0 <= offset <= 8 && offset % 2 == 0
      invariant forall k :: 0 <= k < offset ==> data[k] == 0
    {
      var field := data[offset..offset + 2];
      Le16RoundTrip(0);
      assert Le16(0) == [0, 0];
      if FromLe16(field) != 0 {
        assert field[0] == 0 && field[1] == 0 ==> field == [0, 0];
        assert field[0] != 0 || field[1] != 0;
        assert data[offset] != 0 || data[offset + 1] != 0;
        return false;
      }
      assert field[0] == 0 && field[1] == 0;
      offset := offset + 2;
    }
    return true;
  }

  function Insert(blocks: map<u32, map<u64, u64>>, record: BlockRecord): map<u32, map<u64, u64>> {
    var candidates := if record.weak in blocks then blocks[record.weak] else map[];
    blocks[record.weak := if record.strong in candidates then candidates else candidates[record.strong := record.index]]
  }

  /** Inserting a record keeps the first index seen for its pair of hashes. */
  lemma InsertKeepsFirst(size: nat, blocks: map<u32, map<u64, u64>>, records: seq<BlockRecord>, record: BlockRecord)
    requires Signature(size, blocks).Indexes(records)
    ensures Signature(size, Insert(blocks, record)).Indexes(records + [record])
  {}

  method IndexRecords(body: seq<byte>) returns (blocks: map<u32, map<u64, u64>>)
    requires |body| % BLOCK_HASH_BYTES == 0
    ensures Signature(0, blocks).Indexes(DecodeRecords(body))
  {
    ghost var records := DecodeRecords(body);
    blocks := map[];
    var count := |body| / BLOCK_HASH_BYTES;
    var k := 0;
    while k < count
      invariant 0 <= k <= count == |records|
      invariant Signature(0, blocks).Indexes(records[..k])
    {
      var record := DecodeRecord(body[BLOCK_HASH_BYTES * k..BLOCK_HASH_BYTES * (k + 1)]);
      DecodedRecordAt(body, k);
      InsertKeepsFirst(0, blocks, records[..k], record);
      var candidates := if record.weak in blocks then blocks[record.weak] else map[];
      if record.strong !in candidates {
        candidates := candidates[record.strong := record.index];
      }
      blocks := blocks[record.weak := candidates];
      k := k + 1;
    }
    assert records[..k] == records;
  }

  lemma SizeIsIrrelevant(size: nat, blocks: map<u32, map<u64, u64>>, records: seq<BlockRecord>)
    requires Signature(0, blocks).Indexes(records)
    ensures Signature(size, blocks).Indexes(records)
  {}

  method Parse(data: seq<byte>, maxBytes: nat) returns (r: Result<Signature, IoError>)
    ensures r.Ok? <==> WellFormed(data, maxBytes)
    ensures r.Err? ==> r.error == if |data| <= maxBytes && !WholeRecords(|data|) then UnexpectedEof else InvalidData
    ensures r.Ok? ==> r.value.blockSize == FromLe32(data[8..12]) && r.value.Indexes(DecodeRecords(data[12..]))
  {
    if |data| > maxBytes {
      return Err(InvalidData);
    }
    if |data| < SIGNATURE_HEADER_BYTES {
      return Err(UnexpectedEof);
    }
    if (|data| - SIGNATURE_HEADER_BYTES) % BLOCK_HASH_BYTES != 0 {
      return Err(UnexpectedEof);
    }
    var supported := VersionsAreZero(data);
    if !supported {
      return Err(InvalidData);
    }
    var blockSize := FromLe32(data[8..12]);
    if blockSize == 0 || blockSize > MAX_BLOCK_BYTES {
      return Err(InvalidData);
    }

    var blocks := IndexRecords(data[SIGNATURE_HEADER_BYTES..]);
    SizeIsIrrelevant(blockSize, blocks, DecodeRecords(data[SIGNATURE_HEADER_BYTES..]));
    return Ok(Signature(blockSize, blocks));
  }

  /** `output` is the signature of the first `index` blocks, which hold the first `consumed` bytes. */
  ghost predicate Written(h: Hashes, data: seq<byte>, size: nat, index: nat, consumed: nat, output: seq<byte>) {
    && 0 < size < U32_LIMIT
    && consumed == Min(index * size, |data|)
    && (|data| < U64_LIMIT ==>
          && index <= CeilDiv(|data|, size)
          && output == ZERO_HEADER + Le32(size) + EncodeRecords(HonestRecords(h, data, size, index)))
  }

  /** The next `Min(size, rest)` bytes are block `index`. */
  lemma NextBlock(data: seq<byte>, size: nat, index: nat, consumed: nat, length: nat)
    requires 0 < size && consumed == Min(index * size, |data|) < |data|
    requires length == Min(size, |data| - consumed)
    ensures index * size == consumed && index <= consumed
    ensures Block(data, size, index) == data[consumed..consumed + length]
    ensures consumed + length == Min((index + 1) * size, |data|)
  {}

  lemma EncodeOneMore(h: Hashes, data: seq<byte>, size: nat, index: u64)
    requires 0 < size && |data| < U64_LIMIT && index * size < |data|
    ensures index < CeilDiv(|data|, size)
    ensures EncodeRecords(HonestRecords(h, data, size, index + 1))
         == EncodeRecords(HonestRecords(h, data, size, index)) + EncodeRecord(RecordOf(h, data, size, index))
  {
    BlockCount(|data|, size);
    var records := HonestRecords(h, data, size, index + 1);
    assert records[..index] == HonestRecords(h, data, size, index);
  }

  lemma WriteOneRecord(h: Hashes, data: seq<byte>, size: nat, index: u64, consumed: nat, output: seq<byte>, length: nat,
                       record: BlockRecord)
    requires Written(h, data, size, index, consumed, output) && consumed < |data|
    requires length == Min(size, |data| - consumed) && index * size == consumed
    requires record == RecordOf(h, data, size, index)
    ensures Written(h, data, size, index + 1, consumed + length, output + EncodeRecord(record))
  {
    hide EncodeRecord, EncodeRecords, HonestRecords, RecordOf, LittleEndian;
    NextBlock(data, size, index, consumed, length);
    if |data| < U64_LIMIT {
      EncodeOneMore(h, data, size, index);
    }
  }

  lemma AllBlocksRead(h: Hashes, data: seq<byte>, size: nat, index: nat, output: seq<byte>)
    requires |data| < U64_LIMIT && Written(h, data, size, index, |data|, output)
    ensures output == SignatureBytes(h, data, size)
  {
    BlockCount(|data|, size);
    assert !(index * size < |data|);
  }

  /** The record of the next `contents`, hashed both ways. */
  method HashBlock(h: Hashes, index: u64, contents: seq<byte>) returns (record: BlockRecord)
    ensures record == BlockRecord(index, Checksum(contents), h.strong(contents))
  {
    var weak := new RollingChecksum(contents);
    assert weak.Summarizes(contents);
    record := BlockRecord(index, weak.Digest(), h.strong(contents));
  }

  /** The block size is chosen by a floating-point square root; any supported size may come in. */
  method WriteSignature(h: Hashes, source: ByteSource, expectedSize: u64, blockSize: nat)
    returns (r: Result<nat, IoError>, output: seq<byte>)
    requires source.Valid() && source.position == 0
    requires HASH_BLOCK_BYTES <= blockSize <= MAX_BLOCK_BYTES
    modifies source
    ensures r.Ok? <==> |source.data| == expectedSize
    ensures r.Err? ==> r.error == InvalidData
    ensures r.Ok? ==> output == SignatureBytes(h, source.data, blockSize) && r.value == |output|
    ensures r.Ok? ==> LaidOut(h, source.data, blockSize, output)
  {
    hide LaidOut;
    output := ZERO_HEADER + Le32(blockSize);
    var consumed: nat := 0;
    var index: nat := 0;
    var block := new byte[blockSize];
    ghost var data := source.data;
    while true
      invariant source.Valid() && source.position == consumed < U64_LIMIT
      invariant Written(h, data, blockSize, index, consumed, output)
      decreases |data| - consumed
    {
      var length := ReadUpTo(source, block);
      if length == 0 {
        break;
      }
      if consumed + length >= U64_LIMIT {
        return Err(InvalidData), output;
      }
      NextBlock(data, blockSize, index, consumed, length);
      var record := HashBlock(h, index, block[..length]);
      WriteOneRecord(h, data, blockSize, index, consumed, output, length, record);
      output := output + EncodeRecord(record);
      consumed := consumed + length;
      index := index + 1;
    }
    assert consumed == |data|;
    AllBlocksRead(h, data, blockSize, index, output);
    SignatureLaidOut(h, data, blockSize);
    if consumed != expectedSize {
      return Err(InvalidData), output;
    }
    return Ok(|output|), output;
  }
}
