/** What a peer is sent for the names it asks for: the nodes that the approved paths were found to be. */
module ReceiveFetches {
  import opened Bytes
  import opened ByteStreams
  import opened Signatures
  import opened DeltaFormat
  import opened DeltaPatcher
  import opened DeltaRoundTrip
  import opened TransferCommands
  import opened MapSums
  import opened ReceiveTree
  import opened ReceiveSessions
  import opened ReceiveFrames
  import opened ReceiveFilesystem
  import opened ReceiveRuns
  import opened ReceiveSources

  /* ---- What a request is answered with ---- */

  /** Plainly asked for, a first name is answered with its file, and a link's target is data only when relative. */
  predicate PlainFits(entries: seq<ListedEntry>, k: nat, io: FilesIo, answer: Answer)
    requires k < |entries|
  {
    match entries[k].kind
    case RegularEntry(size, identity) =>
      if !IsFirstName(entries, k) then answer == Says(HardLinkRequested)
      else if io.lengthKnown(identity) && |io.content(identity)| == size then
        Delivers(io, io.content(identity), answer)
      else answer == Says(SourceChanged)
    case DirectoryEntry => answer == Says(DirectoryRequested)
    case SymlinkEntry(target, _, absolute) =>
      if absolute then answer == Says(AbsoluteSymlink) else Delivers(io, target, answer)
  }

  /** Asked for by rsync, only a first name of a file awaits a signature, for that file. */
  predicate RsyncFits(entries: seq<ListedEntry>, k: nat, io: FilesIo, answer: Answer, pending: Option<PendingRsync>)
    requires k < |entries|
  {
    if !(entries[k].kind.RegularEntry? && IsFirstName(entries, k)) then answer == Says(NotARegularFile)
      && pending == None
    else
      var size, identity := entries[k].kind.size, entries[k].kind.identity;
      if io.lengthKnown(identity) && |io.content(identity)| == size then
        answer == Silent && pending == Some(PendingRsync(size, identity, []))
      else answer == Says(SourceChanged) && pending == None
  }

  function PendingFor(s: ReceiveSession, id: Text): Option<PendingRsync> {
    if id in s.rsync then Some(s.rsync[id]) else None
  }

  lemma AnswerFits(entries: seq<ListedEntry>, k: nat, source: ReceiveSource, rsync: bool, io: FilesIo, answer: Answer)
    requires k < |entries| && SourceFits(entries, k, source) && TransmitAnswers(source, rsync, io, answer)
    ensures !rsync ==> PlainFits(entries, k, io, answer)
    ensures rsync ==> RsyncFits(entries, k, io, answer,
                                if source.RegularSource? && io.Unchanged(source.size, source.identity)
                                then Some(PendingRsync(source.size, source.identity, [])) else None)
  {
    hide IsFirstName, Delivers;
  }

  lemma PendingAfter(s: ReceiveSession, name: Text, id: Text, rsync: bool, io: FilesIo)
    requires name in s.sources && s.sources[name] != [] && id !in s.rsync
    ensures var source := s.sources[name][0];
            PendingFor(Transmitted(s, name, id, rsync, io), id)
            == if rsync && source.RegularSource? && io.Unchanged(source.size, source.identity)
               then Some(PendingRsync(source.size, source.identity, [])) else None
  {
    hide Dequeue;
  }

  /** How many sources were handed out for a name. */
  function Fetched(s: ReceiveSession, events: seq<Event>, name: Text): nat {
    |HandedAll(s, events, name)|
  }

  /** What is still queued for a name is what was queued, without the first `n` that were handed out. */
  lemma QueueLeft(s: ReceiveSession, events: seq<Event>, name: Text)
    ensures Fetched(s, events, name) <= |Queue(s.sources, name)|
    ensures Queue(AfterAll(s, events).sources, name) == Queue(s.sources, name)[Fetched(s, events, name)..]
  {
    hide HandedAll, AfterAll, Queue;
    HandedInOrder(s, events, name);
  }

  /**
   * Whatever was asked for before, the next request for a name gets what the next entry of that name
   * in the listing stands for, and a request beyond the last of them is refused.
   */
  lemma FetchFits(l: ReceiveLimits, s: ReceiveSession, events: seq<Event>, before: Sessions,
                  command: FileTransferCommand, io: FilesIo, after: Sessions, answer: Answer)
    returns (k: nat)
    requires ReceiveOk(l, s) && !s.listingComplete
    requires command.fileId.Some? && command.name.Some? && Transmits(before, command, io, after, answer)
    requires command.id in before && before[command.id] == AfterAll(Listed(s), events)
    requires command.fileId.value !in before[command.id].transmittedIds
    ensures var entries, name := EntriesOf(s.entries), command.name.value;
            var n := Fetched(Listed(s), events, name);
            if n >= NamedBefore(entries, |entries|, name) then
              answer == Says(NotApproved) && after == before
            else
              && k < |entries| && entries[k].path == name && NamedBefore(entries, k, name) == n
              && command.id in after
              && AnswersFor(entries, k, command, io, answer, after[command.id])
  {
    hide ReceiveOk, EntriesOf, NamedBefore, AfterAll, HandedAll, Transmitted, TransmitAnswers, SourceFits;
    hide Listed, PlainFits, RsyncFits, Fetched;
    var entries, name, id := EntriesOf(s.entries), command.name.value, command.fileId.value;
    var s' := before[command.id];
    ListedOk(l, s);
    ReceiveConserved(l, Listed(s), events);
    QueueIsCounted(l, s, name);
    QueueLeft(Listed(s), events, name);
    QueueUse(l, s', name, id);
    var n := Fetched(Listed(s), events, name);
    k := 0;
    if n < NamedBefore(entries, |entries|, name) {
      k := NthNamed(entries, |entries|, name, n);
      QueuedSourceFits(l, s, k);
      var source := s'.sources[name][0];
      AnswerFits(entries, k, source, AsksRsync(command), io, answer);
      PendingAfter(s', name, id, AsksRsync(command), io);
    }
  }

  predicate AsksPlainly(command: FileTransferCommand) {
    command.transmissionType in {None, Some(FileTransmissionType.Simple)}
  }

  predicate AnswersFor(entries: seq<ListedEntry>, k: nat, command: FileTransferCommand, io: FilesIo, answer: Answer,
                     after: ReceiveSession)
    requires k < |entries| && command.fileId.Some?
  {
    if command.transmissionType == Some(FileTransmissionType.Rsync) then
      RsyncFits(entries, k, io, answer, PendingFor(after, command.fileId.value))
    else
      PlainFits(entries, k, io, answer)
  }

  lemma QueueUse(l: ReceiveLimits, s: ReceiveSession, name: Text, id: Text)
    requires ReceiveOk(l, s)
    ensures Queue(s.sources, name) != [] <==> name in s.sources
    ensures name in s.sources ==> s.sources[name] == Queue(s.sources, name)
    ensures id !in s.transmittedIds ==> id !in s.rsync
  {
    hide Conserved, CountersOk;
  }

  /* ---- Many approved paths ---- */

  /** One approved path, as it was requested and as it was found, if it was. */
  datatype Listing = Listing(command: FileTransferCommand, quiet: byte, found: Option<Found>)

  predicate Requested(listings: seq<Listing>) {
    forall j :: 0 <= j < |listings| ==> listings[j].command.fileId.Some?
  }

  /** A session from its start, through the listing of several paths. */
  ghost predicate ListedInTurn(l: ReceiveLimits, states: seq<ReceiveSession>, listings: seq<Listing>) {
    && |states| == |listings| + 1 && states[0] == EMPTY_SESSION && Requested(listings)
    && forall j :: 0 <= j < |listings| ==> ListsOne(l, states[j], listings[j], states[j + 1])
  }

  ghost predicate ListsOne(l: ReceiveLimits, s: ReceiveSession, listing: Listing, s': ReceiveSession) {
    && listing.command.fileId.Some?
    && if listing.found.None? then s' == s else Lists(l, s, listing.command, listing.quiet, listing.found.value, s')
  }

  /** The entries of one listing, whatever it is listed behind. */
  function EntriesOfListing(listing: Listing, id: nat): seq<ListedEntry>
    requires listing.command.fileId.Some?
  {
    if listing.found.None? then [] else
      Preorder(listing.command.fileId.value, listing.found.value.path, None, listing.found.value.node, id)
  }

  function BytesOf(entry: ListedEntry): nat {
    match entry.kind
    case RegularEntry(size, _) => size
    case DirectoryEntry => 0
    case SymlinkEntry(target, _, _) => |target|
  }

  function AllBytes(entries: seq<ListedEntry>): nat {
    if entries == [] then 0 else AllBytes(entries[..|entries| - 1]) + BytesOf(entries[|entries| - 1])
  }

  lemma {:induction false} AllBytesAppend(entries: seq<ListedEntry>, more: seq<ListedEntry>)
    ensures AllBytes(entries + more) == AllBytes(entries) + AllBytes(more)
    decreases |more|
  {
    if more == [] {
      assert entries + more == entries;
    } else {
      AllBytesAppend(entries, more[..|more| - 1]);
      assert (entries + more)[..|entries + more| - 1] == entries + more[..|more| - 1];
    }
  }

  predicate EachOfThemFits(entries: seq<ListedEntry>, most: nat) {
    forall k :: 0 <= k < |entries| ==> BytesOf(entries[k]) <= most
  }

  lemma EachAppend(entries: seq<ListedEntry>, more: seq<ListedEntry>, most: nat)
    ensures EachOfThemFits(entries + more, most) <==> EachOfThemFits(entries, most) && EachOfThemFits(more, most)
    ensures EachOfThemFits([], most)
  {
    hide BytesOf;
    var all := entries + more;
    assert forall k :: 0 <= k < |entries| ==> all[k] == entries[k];
    assert forall k :: 0 <= k < |more| ==> all[|entries| + k] == more[k];
  }

  lemma {:induction false} TreeBytes(specId: Text, path: Text, parent: Option<nat>, root: Node, id: nat, most: nat)
    ensures AllBytes(Preorder(specId, path, parent, root, id)) == TotalBytes(root)
    ensures EachOfThemFits(Preorder(specId, path, parent, root, id), most) <==> EachFits(root, most)
    decreases root, 1
  {
    hide PreorderAll, TotalBytesAll, EachFitsAll, AllBytes;
    var entries := Preorder(specId, path, parent, root, id);
    HeadBytes(entries[0]);
    if root.DirectoryNode? {
      BelowBytes(specId, path, id, root.children, id + 1, most);
      BelowIsRest(specId, path, parent, root, id);
      AllBytesAppend(entries[..1], PreorderAll(specId, path, id, root.children, id + 1));
    } else {
      assert entries == [entries[0]];
    }
  }

  lemma HeadBytes(entry: ListedEntry)
    ensures AllBytes([entry]) == BytesOf(entry)
    ensures AllBytes([]) == 0
  {
    assert [entry][..0] == [];
  }

  lemma {:induction false} BelowBytes(specId: Text, path: Text, parent: nat, children: seq<Child>, id: nat, most: nat)
    ensures AllBytes(PreorderAll(specId, path, parent, children, id)) == TotalBytesAll(children)
    ensures EachOfThemFits(PreorderAll(specId, path, parent, children, id), most) <==> EachFitsAll(children, most)
    decreases children, 0
  {
    hide Preorder, PreorderAll, CountAll, TotalBytes, EachFits, AllBytes, BytesOf, EachOfThemFits;
    NoEntries(specId, path, parent, id);
    EachAppend([], [], most);
    HeadBytes(ListedEntry(specId, id, path, None, DirectoryEntry));
    if children != [] {
      var initial, last := children[..|children| - 1], children[|children| - 1];
      PreorderAllUnfold(specId, path, parent, children, id);
      var tailId := id + CountAll(initial);
      BelowBytes(specId, path, parent, initial, id, most);
      TreeBytes(specId, Join(path, last.name), Some(parent), last.node, tailId, most);
      var tail := Preorder(specId, Join(path, last.name), Some(parent), last.node, tailId);
      AllBytesAppend(PreorderAll(specId, path, parent, initial, id), tail);
      EachAppend(PreorderAll(specId, path, parent, initial, id), tail, most);
    }
  }

  /** The session has listed these entries, and has charged for just them. */
  ghost predicate HasListed(l: ReceiveLimits, s: ReceiveSession, entries: seq<ListedEntry>) {
    && ReceiveOk(l, s) && !s.listingComplete
    && EntriesOf(s.entries) == entries && s.plannedBytes == AllBytes(entries)
  }

  /** One more tree is within the limits of the session, counted from its entries. */
  predicate Admits(l: ReceiveLimits, entries: seq<ListedEntry>, more: seq<ListedEntry>) {
    && |entries| + |more| <= l.maxFiles && EachOfThemFits(more, l.maxFileBytes)
    && AllBytes(entries) + AllBytes(more) <= l.maxSessionBytes
  }

  /** A path is added whole exactly when it is within the limits, and adds nothing otherwise. */
  lemma ListingIff(l: ReceiveLimits, s: ReceiveSession, listing: Listing, s': ReceiveSession,
                   entries: seq<ListedEntry>)
    requires HasListed(l, s, entries) && ListsOne(l, s, listing, s')
    ensures var more := EntriesOfListing(listing, |entries|);
            HasListed(l, s', if Admits(l, entries, more) then entries + more else entries)
  {
    hide ReceiveOk, Preorder, EachOfThemFits, TotalBytes, EachFits, AllBytes, EntriesOf, Count, Refuses;
    var more := EntriesOfListing(listing, |entries|);
    var id := listing.command.fileId.value;
    if listing.found.None? {
      assert entries + [] == entries;
      return;
    }
    var found := listing.found.value;
    TreeBytes(id, found.path, None, found.node, |entries|, l.maxFileBytes);
    ListsOk(l, s, listing.command, listing.quiet, found, s');
    CountersAre(l, s);
    AllBytesAppend(entries, more);
    EntriesOfAppend(s.entries, ItemsOf(more));
    EntriesOfItems(more);
    OneError(s.entries);
  }

  /** The refusal names a limit that the tree does exceed, counted from the entries. */
  predicate ExceedsFor(l: ReceiveLimits, entries: seq<ListedEntry>, more: seq<ListedEntry>, error: ListingError) {
    match error
    case TooManyEntries => |entries| + |more| > l.maxFiles
    case FileTooLarge => !EachOfThemFits(more, l.maxFileBytes)
    case SessionTooLarge => AllBytes(entries) + AllBytes(more) > l.maxSessionBytes
  }

  /** A path that is refused leaves a note of the reason for the peer, unless it asked for quiet. */
  lemma RefusalIsNoted(l: ReceiveLimits, s: ReceiveSession, listing: Listing, s': ReceiveSession,
                       entries: seq<ListedEntry>)
    requires HasListed(l, s, entries) && ListsOne(l, s, listing, s') && listing.found.Some?
    requires !Admits(l, entries, EntriesOfListing(listing, |entries|))
    ensures if listing.quiet >= 2 then s' == s
            else exists error: ListingError ::
                   && ExceedsFor(l, entries, EntriesOfListing(listing, |entries|), error)
                   && s' == s.(entries := s.entries + [ErrorItem(error)])
  {
    hide ReceiveOk, Preorder, EachOfThemFits, TotalBytes, EachFits, AllBytes, EntriesOf, Count;
    var found := listing.found.value;
    TreeBytes(listing.command.fileId.value, found.path, None, found.node, |entries|, l.maxFileBytes);
    CountersAre(l, s);
    var error: ListingError :| Refuses(BoundsLeft(l, s), 0, 0, found.node, error)
      && s' == if Spoken(listing.quiet, true) then s.(entries := s.entries + [ErrorItem(error)]) else s;
    assert ExceedsFor(l, entries, EntriesOfListing(listing, |entries|), error);
  }

  lemma CountersAre(l: ReceiveLimits, s: ReceiveSession)
    requires ReceiveOk(l, s) && !s.listingComplete
    ensures s.nextActualId == s.listedFiles == |EntriesOf(s.entries)|
    ensures s.listedFiles <= l.maxFiles && s.plannedBytes <= l.maxSessionBytes
  {
    hide NoQueueEmpty, SignaturesOk, Rooted;
  }

  lemma OneError(items: seq<PendingItem>)
    ensures forall error: ListingError :: EntriesOf(items + [ErrorItem(error)]) == EntriesOf(items)
  {}

  /** The entries after `n` of the listings, each tree that was within the limits behind the ones before it. */
  function EntriesAfter(l: ReceiveLimits, listings: seq<Listing>, n: nat): seq<ListedEntry>
    requires n <= |listings| && Requested(listings)
  {
    if n == 0 then [] else
      var before := EntriesAfter(l, listings, n - 1);
      var more := EntriesOfListing(listings[n - 1], |before|);
      if Admits(l, before, more) then before + more else before
  }

  /** Over any listings, the session holds just the trees that were within its limits, in order. */
  lemma {:induction false} ListedInTurnIs(l: ReceiveLimits, states: seq<ReceiveSession>, listings: seq<Listing>, n: nat)
    requires ListedInTurn(l, states, listings) && n <= |listings|
    ensures HasListed(l, states[n], EntriesAfter(l, listings, n))
  {
    hide ListsOne, Admits, EntriesOfListing, HasListed;
    if n == 0 {
      NothingHasListed(l);
    } else {
      ListedInTurnIs(l, states, listings, n - 1);
      ListingIff(l, states[n - 1], listings[n - 1], states[n], EntriesAfter(l, listings, n - 1));
    }
  }

  lemma NothingHasListed(l: ReceiveLimits)
    ensures HasListed(l, EMPTY_SESSION, [])
  {
    EmptyReceiveOk(l);
  }

  /** The entry is a node of the tree that this path was found to be. */
  ghost predicate ComesFrom(entry: ListedEntry, listing: Listing, node: Node) {
    && listing.command.fileId == Some(entry.specId) && ShowsNode(entry, entry.path, node)
    && listing.found.Some? && Reaches(listing.found.value.path, listing.found.value.node, entry.path, node)
  }

  /** Every entry comes from one of the listings. */
  lemma {:induction false} EntryComesFrom(l: ReceiveLimits, listings: seq<Listing>, n: nat, k: nat)
    returns (j: nat, node: Node)
    requires n <= |listings| && Requested(listings)
    requires k < |EntriesAfter(l, listings, n)|
    ensures j < n && ComesFrom(EntriesAfter(l, listings, n)[k], listings[j], node)
  {
    hide Admits, Preorder, Reaches, ShowsNode;
    var before := EntriesAfter(l, listings, n - 1);
    if k < |before| {
      j, node := EntryComesFrom(l, listings, n - 1, k);
    } else {
      j := n - 1;
      var listing := listings[j];
      node := EntryIsReached(listing.command.fileId.value, listing.found.value.path, None, listing.found.value.node,
                             |before|, k - |before|);
    }
  }

  /** A path within the limits is listed whole, and stays listed. */
  lemma {:induction false} NodeIsListed(l: ReceiveLimits, listings: seq<Listing>, n: nat, j: nat, p: Text, node: Node)
    requires j < n <= |listings| && Requested(listings)
    requires var before := EntriesAfter(l, listings, j); Admits(l, before, EntriesOfListing(listings[j], |before|))
    requires listings[j].found.Some?
    requires Reaches(listings[j].found.value.path, listings[j].found.value.node, p, node)
    ensures Shown(EntriesAfter(l, listings, n), listings[j].command.fileId.value, p, node)
  {
    hide Admits, Preorder, Reaches, ShowsNode, Shown;
    var before, specId := EntriesAfter(l, listings, n - 1), listings[j].command.fileId.value;
    var more := EntriesOfListing(listings[n - 1], |before|);
    if j == n - 1 {
      ReachedIsShown(specId, listings[j].found.value.path, None, listings[j].found.value.node, |before|, p, node);
    } else {
      NodeIsListed(l, listings, n - 1, j, p, node);
    }
    ShownIn(before, more, specId, p, node);
  }

  /* ---- End to end ---- */

  /** One request for data, with what its world was and what it left behind. */
  datatype Fetch = Fetch(command: FileTransferCommand, before: Sessions, io: FilesIo, after: Sessions, answer: Answer)

  /** A request of a session whose listing was completed as `s`, and of which `events` had been asked since. */
  ghost predicate IsRequest(s: ReceiveSession, events: seq<Event>, x: Fetch) {
    && x.command.fileId.Some? && x.command.name.Some?
    && Transmits(x.before, x.command, x.io, x.after, x.answer)
    && x.command.id in x.before && x.before[x.command.id] == AfterAll(Listed(s), events)
    && x.command.fileId.value !in x.before[x.command.id].transmittedIds
  }

  /** Asked for plainly by its first name, a file that is as long as it was listed is sent whole. */
  predicate GetsContent(entries: seq<ListedEntry>, k: nat, size: nat, identity: nat, x: Fetch)
    requires k < |entries| && entries[k].kind.RegularEntry?
  {
    IsFirstName(entries, k) && AsksPlainly(x.command) && x.io.Unchanged(size, identity) ==>
      Delivers(x.io, x.io.content(identity), x.answer)
  }

  /** The answer is that of the entry `k`, which stands for this node. */
  ghost predicate GetsNode(entries: seq<ListedEntry>, k: nat, listing: Listing, node: Node, x: Fetch) {
    && x.command.fileId.Some? && x.command.name.Some? && k < |entries| && entries[k].path == x.command.name.value
    && ComesFrom(entries[k], listing, node)
    && x.command.id in x.after && AnswersFor(entries, k, x.command, x.io, x.answer, x.after[x.command.id])
    && (node.RegularNode? ==> entries[k].kind.RegularEntry? && GetsContent(entries, k, node.size, node.identity, x))
  }

  /**
   * From approved path to peer: after any listings and any requests, a source that is handed out for
   * a name stands for a node that one of the approved paths was found to have under just that name,
   * and is answered as that node: a regular file, under its first name, with its own content.
   */
  lemma FetchDeliversTheNode(l: ReceiveLimits, states: seq<ReceiveSession>, listings: seq<Listing>,
                             events: seq<Event>, x: Fetch)
    returns (j: nat, node: Node, k: nat)
    requires ListedInTurn(l, states, listings) && IsRequest(states[|listings|], events, x)
    requires x.answer != Says(NotApproved)
    ensures var entries, name := EntriesAfter(l, listings, |listings|), x.command.name.value;
            && j < |listings| && listings[j].found.Some?
            && Reaches(listings[j].found.value.path, listings[j].found.value.node, name, node)
            && GetsNode(entries, k, listings[j], node, x)
            && NamedBefore(entries, k, name) == Fetched(Listed(states[|listings|]), events, name)
  {
    hide ReceiveOk, EntriesOf, NamedBefore, AfterAll, Transmits, RsyncFits, Fetched, Reaches, Listed, IsFirstName;
    hide Delivers, EntriesAfter, ListsOne;
    var entries := EntriesAfter(l, listings, |listings|);
    ListedInTurnIs(l, states, listings, |listings|);
    k := FetchFits(l, states[|listings|], events, x.before, x.command, x.io, x.after, x.answer);
    j, node := EntryComesFrom(l, listings, |listings|, k);
  }

  lemma StartedIsUsed(before: Sessions, command: FileTransferCommand, io: FilesIo, after: Sessions, answer: Answer)
    requires command.fileId.Some? && command.name.Some? && Transmits(before, command, io, after, answer)
    requires answer == Silent
    ensures command.id in after && command.fileId.value in after[command.id].transmittedIds
  {
    hide Dequeue, TransmitAnswers;
  }

  /** A signature that is answered by a stream was complete, and is answered by the delta against it. */
  lemma StreamIsDelta(before: Sessions, command: FileTransferCommand, io: FilesIo, after: Sessions, answer: Answer)
    returns (parsed: Signature)
    requires TakesSignature(before, command, io, after, answer) && answer.Streams?
    ensures command.fileId.Some? && command.id in before && command.fileId.value in before[command.id].rsync
    ensures var pending := before[command.id].rsync[command.fileId.value];
            && ParsedFrom(pending.signature + command.data, parsed) && 0 < parsed.blockSize
            && SendsDelta(io, pending, parsed, answer)
  {
    hide SendsDelta, WellFormed, Signature.Indexes, DecodeRecords, Signed, SignatureFits;
    var pending := before[command.id].rsync[command.fileId.value];
    WellFormedSize(pending.signature + command.data);
    parsed :| ParsedFrom(pending.signature + command.data, parsed) && SendsDelta(io, pending, parsed, answer);
  }

  /**
   * One file fetched by rsync: the request for it, whatever else is asked for meanwhile, and the last
   * of the signature data, each with what its world was and what it left behind.
   */
  datatype RsyncFetch = RsyncFetch(
    start: FileTransferCommand,
    atStart: Sessions,
    io: FilesIo,
    started: Sessions,
    more: seq<Event>,
    last: FileTransferCommand,
    atEnd: Sessions,
    later: FilesIo,
    ended: Sessions,
    answer: Answer)

  /** The request is made of a listed session, and is its session's and its id's until its signature is whole. */
  ghost predicate IsFetch(s: ReceiveSession, events: seq<Event>, x: RsyncFetch, signature: seq<byte>) {
    && x.start.fileId.Some? && x.start.name.Some? && x.start.transmissionType == Some(FileTransmissionType.Rsync)
    && x.start.id in x.atStart && x.atStart[x.start.id] == AfterAll(Listed(s), events)
    && x.start.fileId.value !in x.atStart[x.start.id].transmittedIds
    && Transmits(x.atStart, x.start, x.io, x.started, Silent)
    && x.start.id in x.started && x.last.id in x.atEnd
    && x.atEnd[x.last.id] == AfterAll(x.started[x.start.id], x.more)
    && x.last.fileId == x.start.fileId && DataFor(x.more, x.start.fileId.value) + x.last.data == signature
    && TakesSignature(x.atEnd, x.last, x.later, x.ended, x.answer) && x.answer.Streams? && x.answer.result == Streamed
  }

  /**
   * The same by rsync: the file asked for under a name awaits a signature, and once the peer has sent
   * the signature of its base, in any pieces and among any other requests, what is streamed back turns
   * that base into the content of the file that the entry stands for.
   */
  lemma RsyncDeliversTheEntry(l: ReceiveLimits, s: ReceiveSession, events: seq<Event>, x: RsyncFetch, c: Config)
    returns (k: nat)
    requires ReceiveOk(l, s) && !s.listingComplete && c.Valid() && c.h == x.later.h
    requires IsFetch(s, events, x, SignatureBytes(c.h, c.base, c.blockSize))
    ensures var entries, name := EntriesOf(s.entries), x.start.name.value;
            && k < |entries| && entries[k].path == name && entries[k].kind.RegularEntry? && IsFirstName(entries, k)
            && NamedBefore(entries, k, name) == Fetched(Listed(s), events, name)
            && (GoesThrough(c, entries[k].kind.size, x.later, entries[k].kind.identity) ==>
                  RunAll(c, INITIAL, Payloads(x.answer.frames))
                    == Ok(State(x.later.content(entries[k].kind.identity), [], 0, true)))
  {
    hide ReceiveOk, EntriesOf, NamedBefore, AfterAll, Fetched, Listed, IsFirstName, SignatureBytes;
    hide RunAll, Payloads, DataFor, SendsDelta, ParsedFrom, Transmits, TakesSignature, Config.Valid, CollisionFree;
    var id := x.start.fileId.value;
    k := FetchFits(l, s, events, x.atStart, x.start, x.io, x.started, Silent);
    StartedIsUsed(x.atStart, x.start, x.io, x.started, Silent);
    var parsed := StreamIsDelta(x.atEnd, x.last, x.later, x.ended, x.answer);
    SignatureAccumulates(x.started[x.start.id], x.more, id);
    assert [] + DataFor(x.more, id) == DataFor(x.more, id);
    var kind := EntriesOf(s.entries)[k].kind;
    if GoesThrough(c, kind.size, x.later, kind.identity) {
      RsyncDeliversTheFile(c, x.later, x.atEnd[x.last.id].rsync[id], parsed, x.answer);
    }
  }

  /** The file is still as long as it was listed, and no block of the base collides with it. */
  ghost predicate GoesThrough(c: Config, size: nat, io: FilesIo, identity: nat)
    requires c.Valid()
  {
    && io.Unchanged(size, identity) && size <= c.limit
    && CollisionFree(c.h, c.base, c.blockSize, io.content(identity))
  }

  /* ---- Request ids and signature bytes ---- */

  lemma {:induction false} UsedAreTransmitted(s: ReceiveSession, events: seq<Event>, id: Text)
    ensures id in AfterAll(s, events).transmittedIds <==> id in s.transmittedIds || id in Used(s, events)
    decreases |events|
  {
    hide After, HandsOut;
    if events != [] {
      SourcesAfter(s, events[0]);
      UsedAreTransmitted(After(s, events[0]), events[1..], id);
    }
  }

  /** A request is refused for its id exactly when that id has already got a source, and then changes nothing. */
  lemma UsedIdIsRefused(l: ReceiveLimits, s: ReceiveSession, events: seq<Event>, before: Sessions,
                        command: FileTransferCommand, io: FilesIo, after: Sessions, answer: Answer)
    requires ReceiveOk(l, s) && !s.listingComplete
    requires command.fileId.Some? && command.name.Some? && Transmits(before, command, io, after, answer)
    requires command.id in before && before[command.id] == AfterAll(Listed(s), events)
    ensures answer == Says(IdInUse) <==> command.fileId.value in Used(Listed(s), events)
    ensures answer == Says(IdInUse) ==> after == before
  {
    hide NoQueueEmpty, SignaturesOk, CountersOk, EnqueueAll, AfterAll, Used, Transmitted, EntriesOf, Total;
    UsedAreTransmitted(Listed(s), events, command.fileId.value);
  }

  /** The signatures that are pending, over all files, have this many bytes. */
  ghost function PendingBytes(s: ReceiveSession): nat {
    Total(SignatureLengths(s.rsync))
  }

  /**
   * Signature data is taken exactly when the signature stays within 16 MiB and all pending signatures
   * together within 64 MiB; else the request it belongs to is given up, and the others stay.
   */
  lemma SignatureTakenIff(l: ReceiveLimits, before: Sessions, command: FileTransferCommand, io: FilesIo,
                          after: Sessions, answer: Answer)
    requires command.id in before && ReceiveOk(l, before[command.id]) && command.fileId.Some?
    requires command.action == FileTransferAction.Data && TakesSignature(before, command, io, after, answer)
    ensures var s, id, data := before[command.id], command.fileId.value, command.data;
            if id !in s.rsync then answer == Says(NoSignaturePending) && after == before
            else
              && command.id in after && after == before[command.id := after[command.id]]
              && var pending := s.rsync[id];
                 if |pending.signature| + |data| <= 16 * 1024 * 1024
                    && PendingBytes(s) + |data| <= 64 * 1024 * 1024
                 then answer == Silent
                      && after[command.id].rsync == s.rsync[id := pending.(signature := pending.signature + data)]
                 else answer == Says(SignatureTooLarge) && after[command.id].rsync == s.rsync - {id}
  {
    hide Total, NoQueueEmpty, Conserved, CountersOk, SendsDelta, WellFormed, ParsedFrom;
  }
}
