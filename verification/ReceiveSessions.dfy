/** One approved receive session: what was listed, what is still to hand out, which signatures are pending. */
module ReceiveSessions {
  import opened Bytes
  import opened TransferCommands
  import opened MapSums
  import opened ReceiveTree

  const MAX_RSYNC_SIGNATURE_BYTES_PER_FILE := 16 * 1024 * 1024
  const MAX_RSYNC_SIGNATURE_BYTES_PER_SESSION := 64 * 1024 * 1024

  datatype ReceiveLimits = ReceiveLimits(maxFiles: u64, maxFileBytes: u64, maxSessionBytes: u64)

  datatype ReceiveSource =
    | RegularSource(size: nat, identity: nat)
    | DirectorySource
    | SymlinkSource(target: Text, absolute: bool)
    | LinkSource

  datatype PendingItem = EntryItem(entry: ListedEntry) | ErrorItem(error: ListingError)

  datatype PendingRsync = PendingRsync(size: nat, identity: nat, signature: seq<byte>)

  datatype ReceiveSession = ReceiveSession(
    entries: seq<PendingItem>,
    sources: map<Text, seq<ReceiveSource>>,
    transmittedIds: set<Text>,
    rsync: map<Text, PendingRsync>,
    rsyncSignatureBytes: nat,
    listedFiles: nat,
    plannedBytes: nat,
    nextActualId: nat,
    listingComplete: bool)

  const EMPTY_SESSION := ReceiveSession([], map[], {}, map[], 0, 0, 0, 0, false)

  ghost function QueueLengths(sources: map<Text, seq<ReceiveSource>>): map<Text, nat> {
    map name | name in sources :: |sources[name]|
  }

  ghost function SignatureLengths(rsync: map<Text, PendingRsync>): map<Text, nat> {
    map id | id in rsync :: |rsync[id].signature|
  }

  function EntriesOf(items: seq<PendingItem>): seq<ListedEntry> {
    if items == [] then [] else
      var last := items[|items| - 1];
      EntriesOf(items[..|items| - 1]) + if last.EntryItem? then [last.entry] else []
  }

  function ItemsOf(entries: seq<ListedEntry>): (items: seq<PendingItem>)
    ensures |items| == |entries| && forall k :: 0 <= k < |items| ==> items[k] == EntryItem(entries[k])
  {
    seq(|entries|, k requires 0 <= k < |entries| => EntryItem(entries[k]))
  }

  lemma {:induction false} EntriesOfAppend(items: seq<PendingItem>, more: seq<PendingItem>)
    ensures EntriesOf(items + more) == EntriesOf(items) + EntriesOf(more)
    decreases |more|
  {
    if more == [] {
      assert items + more == items;
    } else {
      EntriesOfAppend(items, more[..|more| - 1]);
      assert (items + more)[..|items + more| - 1] == items + more[..|more| - 1];
    }
  }

  lemma {:induction false} EntriesOfItems(entries: seq<ListedEntry>)
    ensures EntriesOf(ItemsOf(entries)) == entries
    decreases |entries|
  {
    if entries != [] {
      var initial := entries[..|entries| - 1];
      EntriesOfItems(initial);
      assert ItemsOf(entries)[..|entries| - 1] == ItemsOf(initial);
    }
  }

  /* ---- Listing ---- */

  /** What is left of the session's limits for the next path. */
  function BoundsLeft(l: ReceiveLimits, s: ReceiveSession): Bounds {
    Bounds(SaturatingSub(l.maxFiles, s.listedFiles), l.maxFileBytes, SaturatingSub(l.maxSessionBytes, s.plannedBytes))
  }

  /** All of the tree is added, or only a note of its refusal. */
  function WithPath(l: ReceiveLimits, s: ReceiveSession, specId: Text, path: Text, node: Node): ReceiveSession {
    s.(entries := s.entries + ItemsOf(Preorder(specId, path, None, node, s.nextActualId)),
       listedFiles := s.listedFiles + Count(node),
       plannedBytes := s.plannedBytes + TotalBytes(node),
       nextActualId := s.nextActualId + Count(node))
  }

  /** The id of the first regular entry with this identity. */
  function FirstHolder(entries: seq<ListedEntry>, identity: nat): Option<nat> {
    if entries == [] then None else
      var last := entries[|entries| - 1];
      var earlier := FirstHolder(entries[..|entries| - 1], identity);
      if earlier.Some? then earlier
      else if last.kind.RegularEntry? && last.kind.identity == identity then Some(last.id)
      else None
  }

  /** What an entry can be asked for: a later name of a listed file has no data of its own. */
  function SourceOf(earlier: seq<ListedEntry>, entry: ListedEntry): ReceiveSource {
    match entry.kind
    case RegularEntry(size, identity) =>
      if FirstHolder(earlier, identity).Some? then LinkSource else RegularSource(size, identity)
    case DirectoryEntry => DirectorySource
    case SymlinkEntry(target, _, absolute) => SymlinkSource(target, absolute)
  }

  datatype Metadata = Metadata(specId: Text, id: nat, name: Text, parent: Option<nat>, fileType: FileTransferType,
                               target: Option<nat>)

  function PathIds(entries: seq<ListedEntry>): map<Text, nat> {
    if entries == [] then map[] else
      var last := entries[|entries| - 1];
      PathIds(entries[..|entries| - 1])[last.path := last.id]
  }

  /** What the peer is told about an entry; links and resolved symbolic links name another entry. */
  function MetadataOf(earlier: seq<ListedEntry>, e: ListedEntry, pathIds: map<Text, nat>): Metadata {
    var (fileType, target) :=
      match e.kind
      case RegularEntry(_, identity) =>
        var holder := FirstHolder(earlier, identity);
        if holder.Some? then (Link, holder) else (Regular, None)
      case DirectoryEntry => (Directory, None)
      case SymlinkEntry(_, resolved, _) =>
        (Symlink, if resolved.Some? && resolved.value in pathIds then Some(pathIds[resolved.value]) else None);
    Metadata(e.specId, e.id, e.path, e.parent, fileType, target)
  }

  /** What is sent for each pending item, in order. */
  datatype Announcement = Announced(metadata: Metadata) | Refused(error: ListingError)

  function AnnouncementOf(earlier: seq<ListedEntry>, item: PendingItem, pathIds: map<Text, nat>): Announcement {
    match item
    case EntryItem(entry) => Announced(MetadataOf(earlier, entry, pathIds))
    case ErrorItem(error) => Refused(error)
  }

  function Announcements(items: seq<PendingItem>, pathIds: map<Text, nat>): (sent: seq<Announcement>)
    ensures |sent| == |items|
  {
    if items == [] then [] else
      var initial, last := items[..|items| - 1], items[|items| - 1];
      Announcements(initial, pathIds) + [AnnouncementOf(EntriesOf(initial), last, pathIds)]
  }

  /** A link entry names an earlier entry for the same file, and that one is listed as a regular file. */
  lemma {:induction false} LinksNameEarlierFiles(entries: seq<ListedEntry>, identity: nat) returns (j: nat)
    requires FirstHolder(entries, identity).Some?
    ensures j < |entries| && entries[j].id == FirstHolder(entries, identity).value
    ensures entries[j].kind.RegularEntry? && entries[j].kind.identity == identity
    ensures FirstHolder(entries[..j], identity) == None
    ensures forall pathIds :: MetadataOf(entries[..j], entries[j], pathIds).fileType == Regular
    decreases |entries|
  {
    var initial := entries[..|entries| - 1];
    if FirstHolder(initial, identity).Some? {
      j := LinksNameEarlierFiles(initial, identity);
      assert initial[..j] == entries[..j];
    } else {
      j := |entries| - 1;
    }
  }

  function Enqueue(sources: map<Text, seq<ReceiveSource>>, name: Text,
                   source: ReceiveSource): map<Text, seq<ReceiveSource>> {
    sources[name := (if name in sources then sources[name] else []) + [source]]
  }

  /** Queue the sources of the entries, in order, behind those already there. */
  function EnqueueAll(sources: map<Text, seq<ReceiveSource>>,
                      entries: seq<ListedEntry>): map<Text, seq<ReceiveSource>> {
    if entries == [] then sources else
      var initial, last := entries[..|entries| - 1], entries[|entries| - 1];
      Enqueue(EnqueueAll(sources, initial), last.path, SourceOf(initial, last))
  }

  function Listed(s: ReceiveSession): ReceiveSession {
    var entries := EntriesOf(s.entries);
    s.(entries := [], listingComplete := true, sources := EnqueueAll(s.sources, entries))
  }

  /* ---- Handing out ---- */

  function Dequeue(sources: map<Text, seq<ReceiveSource>>, name: Text): map<Text, seq<ReceiveSource>>
    requires name in sources && sources[name] != []
  {
    if |sources[name]| == 1 then sources - {name} else sources[name := sources[name][1..]]
  }

  /* ---- The session invariant ---- */

  predicate NoQueueEmpty(s: ReceiveSession) {
    forall name :: name in s.sources ==> s.sources[name] != []
  }

  /**
   * While listing, entry ids count up from zero over all paths, and parents are earlier directories;
   * after it, used request ids and queued sources add up to what was listed.
   */
  ghost predicate Conserved(s: ReceiveSession) {
    if s.listingComplete then
      s.entries == [] && |s.transmittedIds| + Total(QueueLengths(s.sources)) == s.listedFiles
    else
      s.sources == map[] && s.transmittedIds == {} && s.rsync == map[]
      && |EntriesOf(s.entries)| == s.listedFiles && Rooted(EntriesOf(s.entries), 0, None)
  }

  ghost predicate SignaturesOk(s: ReceiveSession) {
    && s.rsync.Keys <= s.transmittedIds
    && s.rsyncSignatureBytes == Total(SignatureLengths(s.rsync)) <= MAX_RSYNC_SIGNATURE_BYTES_PER_SESSION
    && forall id :: id in s.rsync ==> |s.rsync[id].signature| <= MAX_RSYNC_SIGNATURE_BYTES_PER_FILE
  }

  predicate CountersOk(l: ReceiveLimits, s: ReceiveSession) {
    s.listedFiles <= l.maxFiles && s.plannedBytes <= l.maxSessionBytes && s.nextActualId == s.listedFiles
  }

  ghost predicate ReceiveOk(l: ReceiveLimits, s: ReceiveSession) {
    NoQueueEmpty(s) && Conserved(s) && SignaturesOk(s) && CountersOk(l, s)
  }

  lemma EmptyReceiveOk(l: ReceiveLimits)
    ensures ReceiveOk(l, EMPTY_SESSION)
  {}

  lemma WithPathOk(l: ReceiveLimits, s: ReceiveSession, specId: Text, path: Text, node: Node)
    requires ReceiveOk(l, s) && !s.listingComplete && Fits(BoundsLeft(l, s), 0, 0, node)
    ensures ReceiveOk(l, WithPath(l, s, specId, path, node))
  {
    hide Total, Preorder, Count, TotalBytes, EachFits, Rooted, EntriesOf;
    var entries := Preorder(specId, path, None, node, s.nextActualId);
    EntriesOfAppend(s.entries, ItemsOf(entries));
    EntriesOfItems(entries);
    PreorderRooted(specId, path, None, node, s.nextActualId);
    RootedAppend(EntriesOf(s.entries), entries, 0, None);
  }

  lemma WithErrorOk(l: ReceiveLimits, s: ReceiveSession, error: ListingError)
    requires ReceiveOk(l, s) && !s.listingComplete
    ensures ReceiveOk(l, s.(entries := s.entries + [ErrorItem(error)]))
  {}

  lemma EnqueueLength(sources: map<Text, seq<ReceiveSource>>, name: Text, source: ReceiveSource)
    ensures Total(QueueLengths(Enqueue(sources, name, source))) == Total(QueueLengths(sources)) + 1
  {
    var queue := (if name in sources then sources[name] else []) + [source];
    assert QueueLengths(sources[name := queue]) == QueueLengths(sources)[name := |queue|];
    TotalUpdate(QueueLengths(sources), name, |queue|);
  }

  lemma {:induction false} EnqueueAllLength(sources: map<Text, seq<ReceiveSource>>, entries: seq<ListedEntry>)
    requires forall name :: name in sources ==> sources[name] != []
    ensures Total(QueueLengths(EnqueueAll(sources, entries))) == Total(QueueLengths(sources)) + |entries|
    ensures forall name :: name in EnqueueAll(sources, entries) ==> EnqueueAll(sources, entries)[name] != []
    decreases |entries|
  {
    hide Total, SourceOf;
    if entries != [] {
      var initial, last := entries[..|entries| - 1], entries[|entries| - 1];
      EnqueueAllLength(sources, initial);
      EnqueueLength(EnqueueAll(sources, initial), last.path, SourceOf(initial, last));
    }
  }

  lemma NoQueues()
    ensures Total(QueueLengths(map[])) == 0 && EntriesOf([]) == []
  {}

  lemma ListedOk(l: ReceiveLimits, s: ReceiveSession)
    requires ReceiveOk(l, s)
    ensures ReceiveOk(l, Listed(s))
  {
    hide Total, EnqueueAll;
    NoQueues();
    var entries := EntriesOf(s.entries);
    EnqueueAllLength(s.sources, entries);
  }

  lemma DequeueLength(sources: map<Text, seq<ReceiveSource>>, name: Text)
    requires name in sources && sources[name] != []
    ensures Total(QueueLengths(Dequeue(sources, name))) == Total(QueueLengths(sources)) - 1
  {
    if |sources[name]| == 1 {
      assert QueueLengths(sources - {name}) == QueueLengths(sources) - {name};
      TotalRemove(QueueLengths(sources), name);
    } else {
      assert QueueLengths(sources[name := sources[name][1..]]) == QueueLengths(sources)[name := |sources[name]| - 1];
      TotalUpdate(QueueLengths(sources), name, |sources[name]| - 1);
    }
  }

  function HandedOut(s: ReceiveSession, name: Text, id: Text): ReceiveSession
    requires name in s.sources && s.sources[name] != []
  {
    s.(sources := Dequeue(s.sources, name), transmittedIds := s.transmittedIds + {id})
  }

  lemma HandedOutOk(l: ReceiveLimits, s: ReceiveSession, name: Text, id: Text)
    requires ReceiveOk(l, s) && name in s.sources && s.sources[name] != [] && id !in s.transmittedIds
    ensures ReceiveOk(l, HandedOut(s, name, id))
  {
    hide Total;
    DequeueLength(s.sources, name);
  }

  /** A signature may start only for a request id that was just used. */
  function Awaiting(s: ReceiveSession, id: Text, size: nat, identity: nat): ReceiveSession {
    s.(rsync := s.rsync[id := PendingRsync(size, identity, [])])
  }

  lemma SignatureUpdate(rsync: map<Text, PendingRsync>, id: Text, p: PendingRsync)
    ensures Total(SignatureLengths(rsync[id := p])) + (if id in rsync then |rsync[id].signature| else 0)
         == Total(SignatureLengths(rsync)) + |p.signature|
  {
    assert SignatureLengths(rsync[id := p]) == SignatureLengths(rsync)[id := |p.signature|];
    TotalUpdate(SignatureLengths(rsync), id, |p.signature|);
  }

  lemma AwaitingOk(l: ReceiveLimits, s: ReceiveSession, id: Text, size: nat, identity: nat)
    requires ReceiveOk(l, s) && s.listingComplete && id in s.transmittedIds && id !in s.rsync
    ensures ReceiveOk(l, Awaiting(s, id, size, identity))
  {
    hide Total;
    SignatureUpdate(s.rsync, id, PendingRsync(size, identity, []));
  }

  function Buffered(s: ReceiveSession, id: Text, data: seq<byte>): ReceiveSession
    requires id in s.rsync
  {
    s.(rsync := s.rsync[id := s.rsync[id].(signature := s.rsync[id].signature + data)],
       rsyncSignatureBytes := s.rsyncSignatureBytes + |data|)
  }

  predicate SignatureFits(s: ReceiveSession, id: Text, data: seq<byte>)
    requires id in s.rsync
  {
    && |s.rsync[id].signature| + |data| <= MAX_RSYNC_SIGNATURE_BYTES_PER_FILE
    && s.rsyncSignatureBytes + |data| <= MAX_RSYNC_SIGNATURE_BYTES_PER_SESSION
  }

  lemma BufferedOk(l: ReceiveLimits, s: ReceiveSession, id: Text, data: seq<byte>)
    requires ReceiveOk(l, s) && id in s.rsync && SignatureFits(s, id, data)
    ensures ReceiveOk(l, Buffered(s, id, data))
  {
    hide Total;
    SignatureUpdate(s.rsync, id, s.rsync[id].(signature := s.rsync[id].signature + data));
  }

  /** The signature is done with, and its bytes are free again. */
  function Released(s: ReceiveSession, id: Text): ReceiveSession
    requires id in s.rsync
  {
    s.(rsync := s.rsync - {id}, rsyncSignatureBytes := SaturatingSub(s.rsyncSignatureBytes, |s.rsync[id].signature|))
  }

  lemma ReleasedOk(l: ReceiveLimits, s: ReceiveSession, id: Text)
    requires ReceiveOk(l, s) && id in s.rsync
    ensures ReceiveOk(l, Released(s, id))
    ensures Released(s, id).rsyncSignatureBytes == s.rsyncSignatureBytes - |s.rsync[id].signature|
  {
    assert SignatureLengths(s.rsync - {id}) == SignatureLengths(s.rsync) - {id};
    TotalRemove(SignatureLengths(s.rsync), id);
  }
}
