/** What a Finish publishes, and in which order. */
module SendPublication {
  import opened Bytes
  import opened TransferCommands
  import opened SendSessions

  /* ---- Link targets ---- */

  datatype Content = FileContent(bytes: seq<byte>) | SymbolicLink(target: Text)

  datatype LinkResolution = HardLink(sourceId: Text) | SymbolicTo(target: Text)

  datatype PublishResult = Done | NotDone | DoneThenFailed

  /** How the filesystem answers at Finish: path arithmetic, staging of links, and each publication. */
  datatype CommitIo = CommitIo(
    utf8: Text -> bool,
    relativePath: (Text, Text) -> Option<Text>,
    linkPath: Text -> Option<Text>,
    prepareOk: Text -> bool,
    publishFile: Text -> PublishResult,
    publishLink: Text -> PublishResult,
    directoryOk: Text -> bool)

  function DestinationOf(s: SendSession, id: Text): Option<Text> {
    if id in s.files then Some(s.files[id].destination)
    else if id in s.directories then Some(s.directories[id])
    else if id in s.links then Some(s.links[id].destination)
    else None
  }

  /** A hard link must name a regular file of this session; a symbolic link may also name a path. */
  function ResolveLink(s: SendSession, id: Text, io: CommitIo): (r: Option<LinkResolution>)
    requires id in s.links
  {
    var link := s.links[id];
    var parsed := ParseLinkTarget(link.data, io.utf8(id));
    if parsed.None? then None
    else
      var target := parsed.value;
      if link.fileType == Link then
        if target.kind != PathTarget && target.value in s.files then Some(HardLink(target.value)) else None
      else if target.kind == PathTarget then
        match io.linkPath(target.value) case Some(path) => Some(SymbolicTo(path)) case None => None
      else
        match DestinationOf(s, target.value)
        case None => None
        case Some(path) =>
          if target.kind == FidAbsolute then Some(SymbolicTo(path))
          else
            match io.relativePath(path, link.destination)
            case Some(relative) => Some(SymbolicTo(relative))
            case None => None
  }

  predicate AllComplete(s: SendSession) {
    && (forall id :: id in s.files ==> s.files[id].temporary.Some?)
    && (forall id :: id in s.links ==> s.links[id].complete)
  }

  predicate AllResolved(s: SendSession, io: CommitIo) {
    forall id :: id in s.links ==> ResolveLink(s, id, io).Some?
  }

  predicate AllPrepared(s: SendSession, io: CommitIo) {
    forall id :: id in s.links ==> io.prepareOk(id)
  }

  /** What an entry publishes. */
  function FileEntry(s: SendSession, id: Text): Content
    requires id in s.files
  {
    FileContent(s.files[id].Content())
  }

  function LinkEntry(s: SendSession, id: Text, io: CommitIo): Content
    requires id in s.links
  {
    match ResolveLink(s, id, io)
    case Some(HardLink(source)) => if source in s.files then FileContent(s.files[source].Content()) else FileContent([])
    case Some(SymbolicTo(target)) => SymbolicLink(target)
    case None => FileContent([])
  }

  type Disk = map<Text, Content>

  predicate Kept(disk: Disk, disk': Disk, d: Text) {
    (d in disk <==> d in disk') && (d in disk ==> disk'[d] == disk[d])
  }

  /** No two files or links of the session share a destination. */
  ghost predicate DistinctDestinations(s: SendSession) {
    && (forall id, other :: id in s.files && other in s.files && id != other ==>
          s.files[id].destination != s.files[other].destination)
    && (forall id, other :: id in s.files && other in s.links ==> s.files[id].destination != s.links[other].destination)
    && (forall id, other :: id in s.links && other in s.links && id != other ==>
          s.links[id].destination != s.links[other].destination)
  }

  predicate IsDestination(s: SendSession, d: Text) {
    || (exists id :: id in s.files && s.files[id].destination == d)
    || (exists id :: id in s.links && s.links[id].destination == d)
  }

  lemma HardLinksStayInside(s: SendSession, id: Text, io: CommitIo)
    requires id in s.links && s.links[id].fileType == Link && ResolveLink(s, id, io).Some?
    ensures var r := ResolveLink(s, id, io).value; r.HardLink? && r.sourceId in s.files
  {}

  /* ---- The order of publication ---- */

  /** Byte order, as strings are sorted. */
  predicate Less(a: Text, b: Text) {
    b != [] && (a == [] || a[0] < b[0] || (a[0] == b[0] && Less(a[1..], b[1..])))
  }

  lemma {:induction false} LessIsStrict(a: Text, b: Text, c: Text)
    ensures !Less(a, a)
    ensures Less(a, b) && Less(b, c) ==> Less(a, c)
    decreases |a|
  {
    if a != [] {
      LessIsStrict(a[1..], if b == [] then [] else b[1..], if c == [] then [] else c[1..]);
    }
  }

  lemma {:induction false} LessIsTotal(a: Text, b: Text)
    ensures a == b || Less(a, b) || Less(b, a)
    decreases |a|
  {
    if a != [] && b != [] {
      LessIsTotal(a[1..], b[1..]);
      assert a == [a[0]] + a[1..] && b == [b[0]] + b[1..];
    }
  }

  predicate IsLeast(ids: set<Text>, id: Text) {
    id in ids && forall other :: other in ids ==> !Less(other, id)
  }

  lemma {:induction false} LeastExists(ids: set<Text>)
    requires ids != {}
    ensures exists id :: IsLeast(ids, id)
    decreases ids
  {
    hide Less;
    var x :| x in ids;
    var rest := ids - {x};
    if rest == {} {
      LessIsStrict(x, x, x);
      assert ids == {x} && IsLeast(ids, x);
    } else {
      LeastExists(rest);
      var least :| IsLeast(rest, least);
      var winner := if Less(x, least) then x else least;
      forall other | other in ids
        ensures !Less(other, winner)
      {
        LessIsStrict(x, x, x);
        LessIsStrict(other, x, least);
      }
      assert IsLeast(ids, winner);
    }
  }

  datatype Publication = PublishFile(id: Text) | PublishLink(id: Text)

  predicate Belongs(s: SendSession, p: Publication) {
    match p
    case PublishFile(id) => id in s.files
    case PublishLink(id) => id in s.links
  }

  function DestinationFor(s: SendSession, p: Publication): Text
    requires Belongs(s, p)
  {
    match p
    case PublishFile(id) => s.files[id].destination
    case PublishLink(id) => s.links[id].destination
  }

  function ContentFor(s: SendSession, io: CommitIo, p: Publication): Content
    requires Belongs(s, p)
  {
    match p
    case PublishFile(id) => FileEntry(s, id)
    case PublishLink(id) => LinkEntry(s, id, io)
  }

  /** Files go out by id, then hard links, then symbolic ones. */
  predicate Before(s: SendSession, p: Publication, q: Publication)
    requires Belongs(s, p) && Belongs(s, q)
  {
    match p
    case PublishFile(id) => q.PublishLink? || Less(id, q.id)
    case PublishLink(id) => q.PublishLink? && s.links[id].fileType == Link && s.links[q.id].fileType != Link
  }

  predicate AllBelong(s: SendSession, done: seq<Publication>) {
    forall k :: 0 <= k < |done| ==> Belongs(s, done[k])
  }

  /** What was published so far, each entry once; whatever must precede one of them was published before it. */
  ghost predicate InOrder(s: SendSession, done: seq<Publication>) {
    && AllBelong(s, done)
    && (forall j, k :: 0 <= j < k < |done| ==> done[j] != done[k] && !Before(s, done[k], done[j]))
    && forall p: Publication, k :: Belongs(s, p) && p !in done && 0 <= k < |done| ==> !Before(s, p, done[k])
  }

  ghost predicate AllDone(s: SendSession, done: seq<Publication>) {
    forall p: Publication :: Belongs(s, p) ==> p in done
  }

  /** The disk after these publications. */
  function Apply(s: SendSession, io: CommitIo, done: seq<Publication>, disk: Disk): Disk
    requires AllBelong(s, done)
  {
    if done == [] then disk else
      var last := done[|done| - 1];
      Apply(s, io, done[..|done| - 1], disk)[DestinationFor(s, last) := ContentFor(s, io, last)]
  }

  /** The disk was changed by publications in order: by all of them, or by some. */
  ghost predicate PublishedInOrder(s: SendSession, io: CommitIo, disk: Disk, disk': Disk, all: bool) {
    exists done: seq<Publication> :: InOrder(s, done) && disk' == Apply(s, io, done, disk) && (all ==> AllDone(s, done))
  }

  /** One more publication that nothing left out has to precede. */
  lemma PublishNext(s: SendSession, io: CommitIo, done: seq<Publication>, p: Publication, disk: Disk)
    requires InOrder(s, done) && Belongs(s, p) && p !in done
    requires forall q: Publication :: Belongs(s, q) && q !in done ==> !Before(s, q, p)
    ensures AllBelong(s, done + [p]) && InOrder(s, done + [p])
    ensures Apply(s, io, done + [p], disk) == Apply(s, io, done, disk)[DestinationFor(s, p) := ContentFor(s, io, p)]
  {
    hide Before, Belongs, DestinationFor, ContentFor;
    assert (done + [p])[..|done|] == done;
  }

  lemma InOrderBelong(s: SendSession, done: seq<Publication>)
    requires InOrder(s, done)
    ensures AllBelong(s, done)
  {}

  lemma NothingPublished(s: SendSession, io: CommitIo, disk: Disk)
    ensures AllBelong(s, []) && InOrder(s, []) && Apply(s, io, [], disk) == disk
  {}

  /* ---- What is where afterwards ---- */

  /** A destination holds what the last publication there put. */
  lemma {:induction false} LastOneStays(s: SendSession, io: CommitIo, done: seq<Publication>, disk: Disk, k: nat)
    requires AllBelong(s, done) && k < |done|
    requires forall j :: k < j < |done| ==> DestinationFor(s, done[j]) != DestinationFor(s, done[k])
    ensures DestinationFor(s, done[k]) in Apply(s, io, done, disk)
    ensures Apply(s, io, done, disk)[DestinationFor(s, done[k])] == ContentFor(s, io, done[k])
    decreases |done|
  {
    hide Belongs, DestinationFor, ContentFor;
    if k < |done| - 1 {
      LastOneStays(s, io, done[..|done| - 1], disk, k);
    }
  }

  /** Every destination holds what it held, or the whole of what one entry publishes there. */
  lemma {:induction false} PublishedOrKept(s: SendSession, io: CommitIo, done: seq<Publication>, disk: Disk, d: Text)
    requires AllBelong(s, done)
    ensures var disk' := Apply(s, io, done, disk);
            || ((forall k :: 0 <= k < |done| ==> DestinationFor(s, done[k]) != d) && Kept(disk, disk', d))
            || exists k :: (0 <= k < |done| && DestinationFor(s, done[k]) == d
                            && d in disk' && disk'[d] == ContentFor(s, io, done[k]))
    decreases |done|
  {
    hide Belongs, DestinationFor, ContentFor;
    if done != [] {
      var initial, last := done[..|done| - 1], done[|done| - 1];
      PublishedOrKept(s, io, initial, disk, d);
      if DestinationFor(s, last) != d && exists k :: 0 <= k < |initial| && DestinationFor(s, initial[k]) == d {
        var k :| 0 <= k < |initial| && DestinationFor(s, initial[k]) == d && d in Apply(s, io, initial, disk)
          && Apply(s, io, initial, disk)[d] == ContentFor(s, io, initial[k]);
        assert DestinationFor(s, done[k]) == d;
      }
    }
  }

  /** No other entry that may go out after this one shares its destination. */
  ghost predicate GoesOutLast(s: SendSession, p: Publication)
    requires Belongs(s, p)
  {
    forall q: Publication :: Belongs(s, q) && q != p && DestinationFor(s, q) == DestinationFor(s, p) ==> Before(s, q, p)
  }

  /** Once all is published, each entry that nothing supersedes is in its place. */
  lemma PublishedLast(s: SendSession, io: CommitIo, disk: Disk, disk': Disk, p: Publication)
    requires PublishedInOrder(s, io, disk, disk', true) && Belongs(s, p) && GoesOutLast(s, p)
    ensures DestinationFor(s, p) in disk' && disk'[DestinationFor(s, p)] == ContentFor(s, io, p)
  {
    hide Before, Belongs, DestinationFor, ContentFor, Apply;
    var done: seq<Publication> :| InOrder(s, done) && disk' == Apply(s, io, done, disk) && AllDone(s, done);
    assert p in done;
    var k :| 0 <= k < |done| && done[k] == p;
    LastOneStays(s, io, done, disk, k);
  }

  /** With distinct destinations every file and link is in its place, and nothing else has changed. */
  lemma DistinctlyPublished(s: SendSession, io: CommitIo, disk: Disk, disk': Disk)
    requires PublishedInOrder(s, io, disk, disk', true) && DistinctDestinations(s)
    ensures forall id :: id in s.files ==>
              s.files[id].destination in disk' && disk'[s.files[id].destination] == FileEntry(s, id)
    ensures forall id :: id in s.links ==>
              s.links[id].destination in disk' && disk'[s.links[id].destination] == LinkEntry(s, id, io)
    ensures forall d: Text :: !IsDestination(s, d) ==> Kept(disk, disk', d)
  {
    hide FileEntry, LinkEntry, PublishedInOrder, Before;
    forall id | id in s.files
      ensures s.files[id].destination in disk' && disk'[s.files[id].destination] == FileEntry(s, id)
    {
      PublishedLast(s, io, disk, disk', PublishFile(id));
    }
    forall id | id in s.links
      ensures s.links[id].destination in disk' && disk'[s.links[id].destination] == LinkEntry(s, id, io)
    {
      PublishedLast(s, io, disk, disk', PublishLink(id));
    }
    forall d: Text | !IsDestination(s, d)
      ensures Kept(disk, disk', d)
    {
      OthersKept(s, io, disk, disk', d);
    }
  }

  lemma OthersKept(s: SendSession, io: CommitIo, disk: Disk, disk': Disk, d: Text)
    requires PublishedInOrder(s, io, disk, disk', true) && !IsDestination(s, d)
    ensures Kept(disk, disk', d)
  {
    hide Apply, ContentFor, Before;
    var done: seq<Publication> :| InOrder(s, done) && disk' == Apply(s, io, done, disk);
    PublishedOrKept(s, io, done, disk, d);
  }

  /* ---- Which of several entries for one place stays ---- */

  /** The first difference decides, and a name comes before its extensions. */
  lemma {:induction false} LessIff(a: Text, b: Text)
    ensures Less(a, b) <==>
              exists i: nat :: i <= |a| && i < |b| && a[..i] == b[..i] && (i == |a| || a[i] < b[i])
    decreases |a|
  {
    assert a[..0] == b[..0];
    if a != [] && b != [] && a[0] == b[0] {
      LessIff(a[1..], b[1..]);
      if Less(a[1..], b[1..]) {
        var i: nat :| i <= |a| - 1 && i < |b| - 1 && a[1..][..i] == b[1..][..i]
          && (i == |a| - 1 || a[1..][i] < b[1..][i]);
        assert a[..i + 1] == [a[0]] + a[1..][..i] && b[..i + 1] == [b[0]] + b[1..][..i];
      }
      if i: nat :| i <= |a| && i < |b| && a[..i] == b[..i] && (i == |a| || a[i] < b[i]) {
        assert i > 0;
        assert a[1..][..i - 1] == a[..i][1..] && b[1..][..i - 1] == b[..i][1..];
      }
    }
    if a != [] && b != [] && a[0] != b[0] {
      assert forall i: nat :: 0 < i <= |a| && i < |b| && a[..i] == b[..i] ==> a[..i][0] == b[..i][0];
    }
  }

  /** A symbolic link prevails over a hard link, any link over a file, and a file over those with lesser ids. */
  ghost predicate Prevails(s: SendSession, p: Publication)
    requires Belongs(s, p)
  {
    match p
    case PublishFile(id) =>
      && (forall other :: other in s.files && other != id && s.files[other].destination == s.files[id].destination ==>
            Less(other, id))
      && forall other :: other in s.links ==> s.links[other].destination != s.files[id].destination
    case PublishLink(id) =>
      forall other :: other in s.links && other != id && s.links[other].destination == s.links[id].destination ==>
        s.links[other].fileType == Link && s.links[id].fileType == Symlink
  }

  /** Once all is published, each place holds the entry that prevails there. */
  lemma PrevailingStays(s: SendSession, io: CommitIo, disk: Disk, disk': Disk, p: Publication)
    requires PublishedInOrder(s, io, disk, disk', true) && Belongs(s, p) && Prevails(s, p)
    ensures GoesOutLast(s, p)
    ensures DestinationFor(s, p) in disk' && disk'[DestinationFor(s, p)] == ContentFor(s, io, p)
  {
    hide ContentFor, PublishedInOrder, Less;
    PublishedLast(s, io, disk, disk', p);
  }

  /* ---- Outcomes ---- */

  datatype FinishOutcome =
    | NoSession
    | IncompleteEntries
    | UnresolvedLink
    | LinkNotPrepared
    | FileNotPublished
    | LinkNotPublished
    | DirectoryNotFinished
    | Published

  /** The first thing that stands in the way of a Finish, if anything does. */
  ghost function FinishOf(s: SendSession, io: CommitIo): FinishOutcome {
    if !AllComplete(s) then IncompleteEntries
    else if !AllResolved(s, io) then UnresolvedLink
    else if !AllPrepared(s, io) then LinkNotPrepared
    else if exists id :: id in s.files && io.publishFile(id) != Done then FileNotPublished
    else if exists id :: id in s.links && io.publishLink(id) != Done then LinkNotPublished
    else if exists id :: id in s.directories && !io.directoryOk(id) then DirectoryNotFinished
    else Published
  }
}
