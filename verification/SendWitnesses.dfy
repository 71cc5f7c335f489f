/** Small runs of a send session that show where its promises end. */
module SendWitnesses {
  import opened Bytes
  import opened ByteStreams
  import opened DeltaFormat
  import opened DeltaPatcher
  import opened DeltaMeaning
  import opened TransferCommands
  import opened MapSums
  import opened StagedDeltas
  import opened SendSessions
  import opened SendBudget
  import opened SendRuns

  const SMALL: Limits := Limits(2, 10, 10)
  const DISK: WriteIo := WriteIo(100, true, None, false, true)

  function EntryCommand(fileType: FileTransferType, size: Option<u64>): FileTransferCommand {
    FileTransferCommand(File, [], None, 0, size, None, [], None, Some(fileType), None)
  }

  const ENTRY_IO: StageIo := StageIo(Some([65]), true, false, true, None)
  const DECLARED: Event := Stage(EntryCommand(Regular, Some(10)), [1], ENTRY_IO)
  const LINKED: Event := Stage(EntryCommand(Symlink, None), [2], ENTRY_IO)
  const LINK_DATA: Event := Event.Data([2], Filler(5), false, DISK)

  function Filler(n: nat): (s: seq<byte>)
    ensures |s| == n
  {
    seq(n, _ => 7)
  }

  /** Ten declared bytes, and a link that holds `data`. */
  function TenFile(): StagedFile {
    StagedFile([65], Some(10), Some(Plain([], 10)), None, 0, 10, false)
  }

  function TenSession(links: map<Text, StagedLink>, consumed: nat): SendSession {
    SendSession(map[[1] := TenFile()], map[], links, {}, 10, consumed)
  }

  function Linked(): SendSession {
    TenSession(map[[2] := StagedLink(Symlink, [65], [], false)], 0)
  }

  lemma TenPlanned(links: map<Text, StagedLink>, consumed: nat)
    ensures PlannedUnwritten(TenSession(links, consumed)) == 10
  {
    var files: map<Text, StagedFile> := map[[1] := TenFile()];
    var none: map<Text, nat> := map[];
    assert Writings(files) == none[[1] := 0];
    TotalUpdate(none, [1], 0);
    TotalEmpty<Text>();
    hide Total;
  }

  lemma StageDeclared()
    ensures StageEntry(SMALL, EMPTY_SESSION, EntryCommand(Regular, Some(10)), [1], ENTRY_IO).0 == TenSession(map[], 0)
  {}

  lemma StageLinked()
    ensures StageEntry(SMALL, TenSession(map[], 0), EntryCommand(Symlink, None), [2], ENTRY_IO).0
         == Linked()
  {}

  lemma LinkTakesFive()
    ensures EntryData(SMALL, Linked(), [2], Filler(5), false, DISK).0
         == TenSession(map[[2] := StagedLink(Symlink, [65], Filler(5), false)], 5)
  {
    hide TenFile, Filler, ParseLinkTarget, FileData;
    assert [] + Filler(5) == Filler(5);
  }

  lemma AfterDeclared()
    ensures After(SMALL, [DECLARED]) == TenSession(map[], 0)
  {
    hide After, StageEntry, SessionOk, Step, TenFile;
    AfterSnoc(SMALL, [], DECLARED);
    assert [] + [DECLARED] == [DECLARED];
    AfterNothing();
    StepStages(SMALL, EMPTY_SESSION, EntryCommand(Regular, Some(10)), [1], ENTRY_IO);
    StageDeclared();
  }

  lemma AfterNothing()
    ensures After(SMALL, []) == EMPTY_SESSION
  {}

  lemma AfterLinked()
    ensures After(SMALL, [DECLARED, LINKED]) == Linked()
  {
    hide After, StageEntry, SessionOk, Step, TenFile;
    AfterSnoc(SMALL, [DECLARED], LINKED);
    assert [DECLARED] + [LINKED] == [DECLARED, LINKED];
    AfterDeclared();
    StepStages(SMALL, TenSession(map[], 0), EntryCommand(Symlink, None), [2], ENTRY_IO);
    StageLinked();
  }

  lemma AfterLinkData()
    ensures After(SMALL, [DECLARED, LINKED, LINK_DATA])
       == TenSession(map[[2] := StagedLink(Symlink, [65], Filler(5), false)], 5)
  {
    hide After, EntryData, SessionOk, Step, TenSession, Linked, Filler;
    AfterSnoc(SMALL, [DECLARED, LINKED], LINK_DATA);
    assert [DECLARED, LINKED] + [LINK_DATA] == [DECLARED, LINKED, LINK_DATA];
    AfterLinked();
    StepWrites(SMALL, Linked(), [2], Filler(5), false, DISK);
    LinkTakesFive();
  }

  /** Five accepted bytes of link data, nothing rejected: the ten declared bytes no longer fit. */
  lemma LinkDataBreaksThePromise()
    ensures var s := After(SMALL, [DECLARED, LINKED, LINK_DATA]);
            && OpenPlain(s, [1]) && s.files[[1]].expectedSize == Some(10) && s.files[[1]].bytesWritten == 0
            && s.rejected == {}
            && s.files[[1]].writer.value.Valid()
            && Dropped(s, FileData(SMALL, s, [1], Filler(10), false, DISK).0, [1])
  {
    AfterLinkData();
    hide After, SessionOk, FileData, Dropped, Filler;
    PlainDataIff(SMALL, After(SMALL, [DECLARED, LINKED, LINK_DATA]), [1], Filler(10), false, DISK);
  }

  /** Without either, the ten declared bytes go in. */
  lemma PromiseIsKept()
    ensures var s := After(SMALL, [DECLARED]);
            && OpenPlain(s, [1]) && Extended(s, FileData(SMALL, s, [1], Filler(10), false, DISK).0, [1], Filler(10))
  {
    AfterDeclared();
    NoLinkBytes();
    hide After, SessionOk, FileData, Extended, Filler, Total;
    AdmissionIsAPromise(SMALL, [DECLARED], [1], Filler(10), false, DISK);
  }

  lemma NoLinkBytes()
    ensures Total(LinkSizes(map[])) == 0
  {
    assert LinkSizes(map[]) == map[];
    TotalEmpty<Text>();
  }

  lemma LongLinkIsCharged()
    ensures var s := EntryData(SMALL, Linked(), [2], Filler(11), false, DISK).0;
            s.consumedBytes == 11 && s.reservedBytes == 10
  {
    hide TenFile, Filler, ParseLinkTarget, FileData;
  }

  /** A refused chunk of link data is charged in full, past the session limit if it is long. */
  lemma ConsumedMayPassTheLimit()
    ensures var s := After(SMALL, [DECLARED, LINKED, LONG_LINK]);
            s.consumedBytes == 11 > SMALL.maxSessionBytes && s.reservedBytes == 10
  {
    AfterLinked();
    hide After, SessionOk, TenSession, Step, Filler, EntryData;
    AfterSnoc(SMALL, [DECLARED, LINKED], LONG_LINK);
    assert [DECLARED, LINKED] + [LONG_LINK] == [DECLARED, LINKED, LONG_LINK];
    StepWrites(SMALL, Linked(), [2], Filler(11), false, DISK);
    LongLinkIsCharged();
  }

  const LONG_LINK: Event := Event.Data([2], Filler(11), false, DISK)
  const OPEN_ENDED: Event := Stage(EntryCommand(Regular, None), [2], ENTRY_IO)
  const TOO_MUCH: Event := Event.Data([2], Filler(11), false, DISK)

  /** Ten declared bytes, and a file of no declared size. */
  function TwoFiles(): SendSession {
    SendSession(map[[1] := TenFile(), [2] := StagedFile([65], None, Some(Plain([], 0)), None, 0, 0, false)], map[],
                map[], {}, 10, 0)
  }

  function Overrun(): SendSession {
    SendSession(map[[1] := TenFile()], map[], map[], {[2]}, 10, 10)
  }

  lemma StageOpenEnded()
    ensures StageEntry(SMALL, TenSession(map[], 0), EntryCommand(Regular, None), [2], ENTRY_IO).0 == TwoFiles()
  {
    TenPlanned(map[], 0);
    hide PlannedUnwritten, TenFile;
  }

  lemma AfterOpenEnded()
    ensures After(SMALL, [DECLARED, OPEN_ENDED]) == TwoFiles()
  {
    hide After, StageEntry, SessionOk, Step, TenFile, TwoFiles;
    AfterSnoc(SMALL, [DECLARED], OPEN_ENDED);
    assert [DECLARED] + [OPEN_ENDED] == [DECLARED, OPEN_ENDED];
    AfterDeclared();
    StepStages(SMALL, TenSession(map[], 0), EntryCommand(Regular, None), [2], ENTRY_IO);
    StageOpenEnded();
  }

  /** The write stops at the session's limit, is charged that far, and takes its file with it. */
  lemma TooMuchIsCharged()
    ensures EntryData(SMALL, TwoFiles(), [2], Filler(11), false, DISK).0 == Overrun()
  {}

  lemma AfterTooMuch()
    ensures After(SMALL, [DECLARED, OPEN_ENDED, TOO_MUCH]) == Overrun()
  {
    hide After, EntryData, SessionOk, Step, TenFile, TwoFiles, Overrun, Filler;
    AfterSnoc(SMALL, [DECLARED, OPEN_ENDED], TOO_MUCH);
    assert [DECLARED, OPEN_ENDED] + [TOO_MUCH] == [DECLARED, OPEN_ENDED, TOO_MUCH];
    AfterOpenEnded();
    StepWrites(SMALL, TwoFiles(), [2], Filler(11), false, DISK);
    TooMuchIsCharged();
  }

  /** One rejected overrun, no link at all: the ten declared bytes no longer fit. */
  lemma RejectionBreaksThePromise()
    ensures var s := After(SMALL, [DECLARED, OPEN_ENDED, TOO_MUCH]);
            && OpenPlain(s, [1]) && s.files[[1]].expectedSize == Some(10) && s.files[[1]].bytesWritten == 0
            && s.links == map[]
            && s.files[[1]].writer.value.Valid()
            && Dropped(s, FileData(SMALL, s, [1], Filler(10), false, DISK).0, [1])
  {
    AfterTooMuch();
    hide After, SessionOk, FileData, Dropped, Filler;
    PlainDataIff(SMALL, After(SMALL, [DECLARED, OPEN_ENDED, TOO_MUCH]), [1], Filler(10), false, DISK);
  }

  /* ---- The limit that a staged delta was created with ---- */

  const HASHES: Hashes := Hashes(_ => 0, _ => seq(16, _ => 0))
  const BASE: Config := Config(HASHES, [], 6144, 0)
  const DELTA: Event :=
    Stage(EntryCommand(Regular, None).(transmissionType := Some(FileTransmissionType.Rsync)), [2],
          ENTRY_IO.(rsyncBase := Some(BASE)))
  const FULL_DISK: Event := Event.Data([1], Filler(5), false, WriteIo(0, true, None, false, true))
  const WORKING: WriteIo := WriteIo(U64_LIMIT, true, None, false, true)

  /** No room was left when the delta was staged, so its staging file takes nothing, ever. */
  function DeltaFile(): StagedFile {
    StagedFile([65], None, Some(StagedWriter.Rsync(BASE, INITIAL, 0, 0)), None, 0, 0, false)
  }

  function WithDelta(): SendSession {
    SendSession(map[[1] := TenFile(), [2] := DeltaFile()], map[], map[], {}, 10, 0)
  }

  function DeltaAlone(): SendSession {
    SendSession(map[[2] := DeltaFile()], map[], map[], {[1]}, 0, 0)
  }

  lemma StageDelta()
    ensures StageEntry(SMALL, TenSession(map[], 0), DELTA.command, [2], DELTA.stageIo).0 == WithDelta()
  {
    TenPlanned(map[], 0);
    hide PlannedUnwritten, TenFile;
  }

  lemma FullDiskFrees()
    ensures EntryData(SMALL, WithDelta(), [1], Filler(5), false, FULL_DISK.writeIo).0 == DeltaAlone()
  {
    hide DeltaFile, Filler, FileWritten;
    assert WriteLimit(SMALL, WithDelta(), TenFile()) == 10;
    assert WithDelta().files - {[1]} == DeltaAlone().files;
  }

  lemma AfterFullDisk()
    ensures After(SMALL, [DECLARED, DELTA, FULL_DISK]) == DeltaAlone()
  {
    hide After, StageEntry, EntryData, SessionOk, Step, TenSession, WithDelta, DeltaAlone, Filler;
    AfterSnoc(SMALL, [DECLARED], DELTA);
    assert [DECLARED] + [DELTA] == [DECLARED, DELTA];
    AfterDeclared();
    StepStages(SMALL, TenSession(map[], 0), DELTA.command, [2], DELTA.stageIo);
    StageDelta();
    AfterSnoc(SMALL, [DECLARED, DELTA], FULL_DISK);
    assert [DECLARED, DELTA] + [FULL_DISK] == [DECLARED, DELTA, FULL_DISK];
    StepWrites(SMALL, WithDelta(), [1], Filler(5), false, FULL_DISK.writeIo);
    FullDiskFrees();
  }

  lemma FiveArePatched()
    ensures Run(BASE.(limit := 10), INITIAL, OpData(Filler(5)).Encode()) == Ok(INITIAL.(output := Filler(5)))
  {
    hide Run, Filler, Op.Encode;
    assert [] + Filler(5) == Filler(5);
    RunOp(BASE.(limit := 10), INITIAL, OpData(Filler(5)));
  }

  lemma FiveAreNothing()
    ensures OpData(Filler(5)).Encode() != []
  {
    hide Filler;
  }

  /**
   * A delta staged while ten declared bytes filled the session keeps its limit of zero after they are
   * gone: five bytes that the present limit of ten allows, and that a plain file would take, are refused.
   */
  lemma CreationLimitIsKept()
    ensures var s := After(SMALL, [DECLARED, DELTA, FULL_DISK]);
            && OpenDelta(s, [2]) && s.files[[2]].writer.value.Valid() && WriteLimit(SMALL, s, s.files[[2]]) == 10
            && PlainAccepts(SMALL, s, s.files[[2]], 5)
            && Patched(SMALL, s, s.files[[2]], OpData(Filler(5)).Encode()) == Ok(INITIAL.(output := Filler(5)))
            && Dropped(s, FileData(SMALL, s, [2], OpData(Filler(5)).Encode(), false, WORKING).0, [2])
  {
    AfterFullDisk();
    hide After, SessionOk, FileData, Dropped, Filler, Run, Op.Encode;
    FiveArePatched();
    FiveAreNothing();
    DeltaDataIff(SMALL, After(SMALL, [DECLARED, DELTA, FULL_DISK]), [2], OpData(Filler(5)).Encode(), WORKING);
  }
}
