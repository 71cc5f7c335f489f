/**
 * What a listing announces and queues, said of its entries alone: each stands for a node of an
 * approved tree, and its place in the queue of its name holds what that node can be asked for.
 */
module ReceiveSources {
  import opened Bytes
  import opened TransferCommands
  import opened ReceiveTree
  import opened ReceiveSessions
  import opened ReceiveRuns

  /* ---- Entries stand for nodes ---- */

  /** `node` lies below `root`, and its path is that of the root with the names on the way to it. */
  ghost predicate Reaches(path: Text, root: Node, p: Text, node: Node)
    decreases root, 1
  {
    (p == path && node == root) || (root.DirectoryNode? && ReachesBelow(path, root.children, p, node))
  }

  ghost predicate ReachesBelow(path: Text, children: seq<Child>, p: Text, node: Node)
    decreases children, 0
  {
    exists i :: 0 <= i < |children| && Reaches(Join(path, children[i].name), children[i].node, p, node)
  }

  /** The entry has the node's path and kind, and what that kind is listed with. */
  predicate ShowsNode(entry: ListedEntry, p: Text, node: Node) {
    && entry.path == p
    && match node
       case RegularNode(size, identity) => entry.kind.RegularEntry? && entry.kind.size == size
         && entry.kind.identity == identity
       case SymlinkNode(target, resolved, absolute) =>
         entry.kind.SymlinkEntry? && entry.kind.target == target && entry.kind.resolved == resolved
         && entry.kind.absolute == absolute
       case DirectoryNode(_) => entry.kind.DirectoryEntry?
  }

  ghost predicate Shown(entries: seq<ListedEntry>, specId: Text, p: Text, node: Node) {
    exists k :: 0 <= k < |entries| && entries[k].specId == specId && ShowsNode(entries[k], p, node)
  }

  lemma ShownIn(initial: seq<ListedEntry>, more: seq<ListedEntry>, specId: Text, p: Text, node: Node)
    requires Shown(initial, specId, p, node) || Shown(more, specId, p, node)
    ensures Shown(initial + more, specId, p, node)
  {
    hide ShowsNode;
    var entries := initial + more;
    if Shown(initial, specId, p, node) {
      var k :| 0 <= k < |initial| && initial[k].specId == specId && ShowsNode(initial[k], p, node);
      assert entries[k] == initial[k];
    } else {
      var k :| 0 <= k < |more| && more[k].specId == specId && ShowsNode(more[k], p, node);
      assert entries[|initial| + k] == more[k];
    }
  }

  lemma HeadShows(specId: Text, path: Text, parent: Option<nat>, root: Node, id: nat)
    ensures Preorder(specId, path, parent, root, id)[0].specId == specId
    ensures ShowsNode(Preorder(specId, path, parent, root, id)[0], path, root)
  {}

  lemma BelowIsRest(specId: Text, path: Text, parent: Option<nat>, root: Node, id: nat)
    requires root.DirectoryNode?
    ensures var entries := Preorder(specId, path, parent, root, id);
            entries == entries[..1] + PreorderAll(specId, path, id, root.children, id + 1)
  {}

  /** Every node below an approved path is listed. */
  lemma {:induction false} ReachedIsShown(specId: Text, path: Text, parent: Option<nat>, root: Node, id: nat, p: Text,
                                          node: Node)
    requires Reaches(path, root, p, node)
    ensures Shown(Preorder(specId, path, parent, root, id), specId, p, node)
    decreases root, 1
  {
    hide Preorder, PreorderAll, ShowsNode, ReachesBelow;
    var entries := Preorder(specId, path, parent, root, id);
    HeadShows(specId, path, parent, root, id);
    if !(p == path && node == root) {
      ReachedBelowIsShown(specId, path, id, root.children, id + 1, p, node);
      BelowIsRest(specId, path, parent, root, id);
      ShownIn(entries[..1], PreorderAll(specId, path, id, root.children, id + 1), specId, p, node);
    }
  }

  lemma {:induction false} ReachedBelowIsShown(specId: Text, path: Text, parent: nat, children: seq<Child>, id: nat,
                                               p: Text, node: Node)
    requires ReachesBelow(path, children, p, node)
    ensures Shown(PreorderAll(specId, path, parent, children, id), specId, p, node)
    decreases children, 0
  {
    hide Preorder, PreorderAll, CountAll, Shown, Reaches;
    var i :| 0 <= i < |children| && Reaches(Join(path, children[i].name), children[i].node, p, node);
    var initial, last := children[..|children| - 1], children[|children| - 1];
    PreorderAllUnfold(specId, path, parent, children, id);
    var tail := Preorder(specId, Join(path, last.name), Some(parent), last.node, id + CountAll(initial));
    if i == |children| - 1 {
      ReachedIsShown(specId, Join(path, last.name), Some(parent), last.node, id + CountAll(initial), p, node);
    } else {
      assert initial[i] == children[i];
      ReachedBelowIsShown(specId, path, parent, initial, id, p, node);
    }
    ShownIn(PreorderAll(specId, path, parent, initial, id), tail, specId, p, node);
  }

  /** Every entry of an approved path is a node below it. */
  lemma {:induction false} EntryIsReached(specId: Text, path: Text, parent: Option<nat>, root: Node, id: nat, k: nat)
    returns (node: Node)
    requires k < |Preorder(specId, path, parent, root, id)|
    ensures var entry := Preorder(specId, path, parent, root, id)[k];
            entry.specId == specId && ShowsNode(entry, entry.path, node) && Reaches(path, root, entry.path, node)
    decreases root, 1
  {
    hide Preorder, PreorderAll, ShowsNode, ReachesBelow;
    HeadShows(specId, path, parent, root, id);
    HeadPath(specId, path, parent, root, id);
    if k == 0 {
      node := root;
    } else {
      BelowIsRest(specId, path, parent, root, id);
      node := EntryBelowIsReached(specId, path, id, root.children, id + 1, k - 1);
    }
  }

  lemma HeadPath(specId: Text, path: Text, parent: Option<nat>, root: Node, id: nat)
    ensures Preorder(specId, path, parent, root, id)[0].path == path
    ensures !root.DirectoryNode? ==> |Preorder(specId, path, parent, root, id)| == 1
  {}

  lemma {:induction false} EntryBelowIsReached(specId: Text, path: Text, parent: nat, children: seq<Child>, id: nat,
                                               k: nat)
    returns (node: Node)
    requires k < |PreorderAll(specId, path, parent, children, id)|
    ensures var entry := PreorderAll(specId, path, parent, children, id)[k];
            entry.specId == specId && ShowsNode(entry, entry.path, node)
            && ReachesBelow(path, children, entry.path, node)
    decreases children, 0
  {
    hide Preorder, PreorderAll, CountAll, ShowsNode, Reaches;
    NoEntries(specId, path, parent, id);
    var initial, last := children[..|children| - 1], children[|children| - 1];
    PreorderAllUnfold(specId, path, parent, children, id);
    var before := PreorderAll(specId, path, parent, initial, id);
    var entry := PreorderAll(specId, path, parent, children, id)[k];
    if k < |before| {
      node := EntryBelowIsReached(specId, path, parent, initial, id, k);
      var i :| 0 <= i < |initial| && Reaches(Join(path, initial[i].name), initial[i].node, entry.path, node);
      assert children[i] == initial[i];
    } else {
      node := EntryIsReached(specId, Join(path, last.name), Some(parent), last.node, id + CountAll(initial),
                             k - |before|);
    }
  }

  /* ---- Parents ---- */

  /** The entry stands for a child of the directory that entry `p` stands for, and is named below it. */
  predicate IsChildOf(entries: seq<ListedEntry>, k: nat, p: nat, directory: Node, i: nat)
    requires k < |entries|
  {
    && p < k && ShowsNode(entries[p], entries[p].path, directory)
    && directory.DirectoryNode? && i < |directory.children|
    && ShowsNode(entries[k], Join(entries[p].path, directory.children[i].name), directory.children[i].node)
  }

  /** The entry's parent id is that of the directory it lies in, or the given one for the first entry. */
  ghost predicate HasItsParent(entries: seq<ListedEntry>, k: nat, id: nat, parent: Option<nat>)
    requires k < |entries|
  {
    if k == 0 then entries[k].parent == parent
    else exists p: nat, directory: Node, i: nat ::
           entries[k].parent == Some(id + p) && IsChildOf(entries, k, p, directory, i)
  }

  /** The same of the entries below a directory, which is not one of them: its own children name it as their parent. */
  ghost predicate HasParentBelow(entries: seq<ListedEntry>, k: nat, id: nat, path: Text, parent: nat,
                                 children: seq<Child>)
    requires k < |entries|
  {
    || (entries[k].parent == Some(parent)
        && exists i: nat :: i < |children| && ShowsNode(entries[k], Join(path, children[i].name), children[i].node))
    || (exists p: nat, directory: Node, i: nat ::
          entries[k].parent == Some(id + p) && IsChildOf(entries, k, p, directory, i))
  }

  lemma IsChildLater(before: seq<ListedEntry>, entries: seq<ListedEntry>, k: nat, p: nat, directory: Node, i: nat)
    requires k < |entries| && IsChildOf(entries, k, p, directory, i)
    ensures IsChildOf(before + entries, |before| + k, |before| + p, directory, i)
  {
    hide ShowsNode;
  }

  lemma IsChildEarlier(entries: seq<ListedEntry>, more: seq<ListedEntry>, k: nat, p: nat, directory: Node, i: nat)
    requires k < |entries| && IsChildOf(entries, k, p, directory, i)
    ensures IsChildOf(entries + more, k, p, directory, i)
  {
    hide ShowsNode;
  }

  lemma ParentsEarlier(entries: seq<ListedEntry>, more: seq<ListedEntry>, k: nat, id: nat, path: Text, parent: nat,
                       children: seq<Child>, last: Child)
    requires k < |entries| && HasParentBelow(entries, k, id, path, parent, children)
    ensures HasParentBelow(entries + more, k, id, path, parent, children + [last])
  {
    hide ShowsNode, IsChildOf;
    if exists p: nat, directory: Node, i: nat ::
         entries[k].parent == Some(id + p) && IsChildOf(entries, k, p, directory, i)
    {
      var p: nat, directory: Node, i: nat :|
        entries[k].parent == Some(id + p) && IsChildOf(entries, k, p, directory, i);
      IsChildEarlier(entries, more, k, p, directory, i);
    } else {
      var i: nat :| i < |children| && ShowsNode(entries[k], Join(path, children[i].name), children[i].node);
      assert (children + [last])[i] == children[i];
    }
  }

  /** The entries of the last child, behind those of the children before it. */
  lemma ParentsLater(before: seq<ListedEntry>, entries: seq<ListedEntry>, k: nat, id: nat, path: Text, parent: nat,
                     children: seq<Child>, last: Child)
    requires k < |entries| && HasItsParent(entries, k, id + |before|, Some(parent))
    requires ShowsNode(entries[0], Join(path, last.name), last.node)
    ensures HasParentBelow(before + entries, |before| + k, id, path, parent, children + [last])
  {
    hide ShowsNode, IsChildOf;
    if k == 0 {
      assert (children + [last])[|children|] == last;
    } else {
      var p: nat, directory: Node, i: nat :|
        entries[k].parent == Some(id + |before| + p) && IsChildOf(entries, k, p, directory, i);
      IsChildLater(before, entries, k, p, directory, i);
      assert (before + entries)[|before| + k].parent == Some(id + (|before| + p));
    }
  }

  /** The entries below a directory, behind the directory itself. */
  lemma ParentsUnder(head: ListedEntry, entries: seq<ListedEntry>, k: nat, directory: Node)
    requires directory.DirectoryNode? && ShowsNode(head, head.path, directory)
    requires k < |entries| && HasParentBelow(entries, k, head.id + 1, head.path, head.id, directory.children)
    ensures HasItsParent([head] + entries, k + 1, head.id, head.parent)
  {
    hide ShowsNode, IsChildOf;
    var all := [head] + entries;
    assert all[k + 1] == entries[k] && all[0] == head;
    if exists p: nat, other: Node, i: nat ::
         entries[k].parent == Some(head.id + 1 + p) && IsChildOf(entries, k, p, other, i)
    {
      var p: nat, other: Node, i: nat :|
        entries[k].parent == Some(head.id + 1 + p) && IsChildOf(entries, k, p, other, i);
      IsChildLater([head], entries, k, p, other, i);
      assert all[k + 1].parent == Some(head.id + (1 + p));
    } else {
      var i: nat :| i < |directory.children|
        && ShowsNode(entries[k], Join(head.path, directory.children[i].name), directory.children[i].node);
      HeadIsParent(all, k + 1, directory, i);
      assert all[k + 1].parent == Some(head.id + 0);
    }
  }

  lemma HeadIsParent(all: seq<ListedEntry>, k: nat, directory: Node, i: nat)
    requires 0 < k < |all| && directory.DirectoryNode? && ShowsNode(all[0], all[0].path, directory)
    requires i < |directory.children|
    requires ShowsNode(all[k], Join(all[0].path, directory.children[i].name), directory.children[i].node)
    ensures IsChildOf(all, k, 0, directory, i)
  {}

  /** Every entry of a tree names as its parent the directory that it lies in. */
  lemma {:induction false} ParentIsItsDirectory(specId: Text, path: Text, parent: Option<nat>, root: Node, id: nat,
                                                k: nat)
    requires k < |Preorder(specId, path, parent, root, id)|
    ensures HasItsParent(Preorder(specId, path, parent, root, id), k, id, parent)
    decreases root, 1
  {
    hide Preorder, PreorderAll, ShowsNode, HasParentBelow, IsChildOf;
    var entries := Preorder(specId, path, parent, root, id);
    HeadShows(specId, path, parent, root, id);
    HeadPath(specId, path, parent, root, id);
    HeadIds(specId, path, parent, root, id);
    if k > 0 {
      var below := PreorderAll(specId, path, id, root.children, id + 1);
      BelowIsRest(specId, path, parent, root, id);
      ParentBelowIsItsDirectory(specId, path, id, root.children, id + 1, k - 1);
      ParentsUnder(entries[0], below, k - 1, root);
      assert [entries[0]] + below == entries;
    }
  }

  lemma HeadIds(specId: Text, path: Text, parent: Option<nat>, root: Node, id: nat)
    ensures Preorder(specId, path, parent, root, id)[0].id == id
    ensures Preorder(specId, path, parent, root, id)[0].parent == parent
  {}

  lemma {:induction false} ParentBelowIsItsDirectory(specId: Text, path: Text, parent: nat, children: seq<Child>,
                                                     id: nat, k: nat)
    requires k < |PreorderAll(specId, path, parent, children, id)|
    ensures HasParentBelow(PreorderAll(specId, path, parent, children, id), k, id, path, parent, children)
    decreases children, 0
  {
    hide Preorder, PreorderAll, CountAll, ShowsNode, HasParentBelow, HasItsParent;
    NoEntries(specId, path, parent, id);
    var initial, last := children[..|children| - 1], children[|children| - 1];
    assert children == initial + [last];
    PreorderAllUnfold(specId, path, parent, children, id);
    var before := PreorderAll(specId, path, parent, initial, id);
    var tail := Preorder(specId, Join(path, last.name), Some(parent), last.node, id + CountAll(initial));
    if k < |before| {
      ParentBelowIsItsDirectory(specId, path, parent, initial, id, k);
      ParentsEarlier(before, tail, k, id, path, parent, initial, last);
    } else {
      ParentIsItsDirectory(specId, Join(path, last.name), Some(parent), last.node, id + CountAll(initial),
                           k - |before|);
      HeadShows(specId, Join(path, last.name), Some(parent), last.node, id + CountAll(initial));
      ParentsLater(before, tail, k - |before|, id, path, parent, initial, last);
    }
  }

  /* ---- The source of an entry ---- */

  /** No earlier entry is a name of the same file. */
  predicate IsFirstName(entries: seq<ListedEntry>, k: nat)
    requires k < |entries| && entries[k].kind.RegularEntry?
  {
    forall j :: 0 <= j < k && entries[j].kind.RegularEntry? ==> entries[j].kind.identity != entries[k].kind.identity
  }

  /** What an entry can be asked for: a first name its own file, a later name only the link. */
  predicate SourceFits(entries: seq<ListedEntry>, k: nat, source: ReceiveSource)
    requires k < |entries|
  {
    match entries[k].kind
    case RegularEntry(size, identity) =>
      if IsFirstName(entries, k)
      then source.RegularSource? && source.size == size && source.identity == identity
      else source.LinkSource?
    case DirectoryEntry => source.DirectorySource?
    case SymlinkEntry(target, _, absolute) =>
      source.SymlinkSource? && source.target == target && source.absolute == absolute
  }

  /** How many of the first `k` entries have this name. */
  function NamedBefore(entries: seq<ListedEntry>, k: nat, name: Text): nat
    requires k <= |entries|
  {
    if k == 0 then 0 else NamedBefore(entries, k - 1, name) + if entries[k - 1].path == name then 1 else 0
  }

  lemma {:induction false} FirstHolderIff(entries: seq<ListedEntry>, identity: nat)
    ensures FirstHolder(entries, identity).None? <==>
              forall j :: 0 <= j < |entries| && entries[j].kind.RegularEntry? ==> entries[j].kind.identity != identity
    decreases |entries|
  {
    if entries != [] {
      var initial, last := entries[..|entries| - 1], entries[|entries| - 1];
      FirstHolderIff(initial, identity);
      assert entries == initial + [last];
    }
  }

  lemma SourceOfFits(entries: seq<ListedEntry>, k: nat)
    requires k < |entries|
    ensures SourceFits(entries, k, SourceOf(entries[..k], entries[k]))
  {
    hide FirstHolder;
    if entries[k].kind.RegularEntry? {
      FirstHolderIff(entries[..k], entries[k].kind.identity);
    }
  }

  lemma {:induction false} NamedCount(entries: seq<ListedEntry>, k: nat, name: Text)
    requires k <= |entries|
    ensures |SourcesNamed(entries[..k], name)| == NamedBefore(entries, k, name)
  {
    hide SourceOf;
    if k > 0 {
      NamedCount(entries, k - 1, name);
      assert entries[..k][..k - 1] == entries[..k - 1];
    }
  }

  lemma {:induction false} NamedAt(entries: seq<ListedEntry>, k: nat, m: nat)
    requires k < m <= |entries|
    ensures var name := entries[k].path;
            NamedBefore(entries, k, name) < |SourcesNamed(entries[..m], name)|
            && SourcesNamed(entries[..m], name)[NamedBefore(entries, k, name)] == SourceOf(entries[..k], entries[k])
  {
    hide SourceOf;
    assert entries[..m][..m - 1] == entries[..m - 1];
    if k == m - 1 {
      NamedCount(entries, k, entries[k].path);
    } else {
      NamedAt(entries, k, m - 1);
    }
  }

  /** The entry that has the name for the `n`-th time. */
  lemma {:induction false} NthNamed(entries: seq<ListedEntry>, m: nat, name: Text, n: nat) returns (k: nat)
    requires m <= |entries| && n < NamedBefore(entries, m, name)
    ensures k < m && entries[k].path == name && NamedBefore(entries, k, name) == n
  {
    if n < NamedBefore(entries, m - 1, name) {
      k := NthNamed(entries, m - 1, name, n);
    } else {
      k := m - 1;
    }
  }

  /**
   * Once the listing is complete, the queue of a name has one source for each entry of that name, in
   * order, and the source at the place of an entry is that entry's: a file with the size and identity
   * it was listed with, under its first name only.
   */
  lemma QueuedSourceFits(l: ReceiveLimits, s: ReceiveSession, k: nat)
    requires ReceiveOk(l, s) && !s.listingComplete && k < |EntriesOf(s.entries)|
    ensures var entries := EntriesOf(s.entries);
            var queue := Queue(Listed(s).sources, entries[k].path);
            var place := NamedBefore(entries, k, entries[k].path);
            && |queue| == NamedBefore(entries, |entries|, entries[k].path)
            && place < |queue| && SourceFits(entries, k, queue[place])
  {
    hide EnqueueAll, SourcesNamed, NoQueueEmpty, SignaturesOk, CountersOk, SourceFits, NamedBefore, EntriesOf;
    var entries := EntriesOf(s.entries);
    QueuedInOrder(s.sources, entries, entries[k].path);
    assert entries[..|entries|] == entries;
    NamedAt(entries, k, |entries|);
    NamedCount(entries, |entries|, entries[k].path);
    SourceOfFits(entries, k);
  }

  lemma QueueIsCounted(l: ReceiveLimits, s: ReceiveSession, name: Text)
    requires ReceiveOk(l, s) && !s.listingComplete
    ensures var entries := EntriesOf(s.entries);
            |Queue(Listed(s).sources, name)| == NamedBefore(entries, |entries|, name)
  {
    hide EnqueueAll, SourcesNamed, NoQueueEmpty, SignaturesOk, CountersOk, NamedBefore, EntriesOf;
    var entries := EntriesOf(s.entries);
    QueuedInOrder(s.sources, entries, name);
    assert entries[..|entries|] == entries;
    NamedCount(entries, |entries|, name);
  }

  /* ---- What the peer is told of an entry ---- */

  /** The entry is the last one listed under this path. */
  predicate IsLastNamed(entries: seq<ListedEntry>, j: nat, path: Text)
    requires j < |entries|
  {
    entries[j].path == path && forall i :: j < i < |entries| ==> entries[i].path != path
  }

  /** The entry is the first name of the file with this identity. */
  predicate IsFirstOf(entries: seq<ListedEntry>, j: nat, identity: nat)
    requires j < |entries|
  {
    entries[j].kind.RegularEntry? && entries[j].kind.identity == identity && IsFirstName(entries, j)
  }

  /** A later name of a file is a link to its first; a symbolic link names the entry it leads to, if that is listed. */
  ghost predicate TargetFits(entries: seq<ListedEntry>, k: nat, fileType: FileTransferType, target: Option<nat>)
    requires k < |entries|
  {
    match entries[k].kind
    case RegularEntry(_, identity) =>
      if IsFirstName(entries, k) then fileType == Regular && target == None
      else
        && fileType == Link
        && exists j :: 0 <= j < k && IsFirstOf(entries, j, identity) && target == Some(entries[j].id)
    case DirectoryEntry => fileType == Directory && target == None
    case SymlinkEntry(_, resolved, _) =>
      && fileType == Symlink
      && (target.Some? ==> resolved.Some? && exists j :: 0 <= j < |entries| && IsLastNamed(entries, j, resolved.value)
                                                         && target == Some(entries[j].id))
      && (target.None? && resolved.Some? ==> forall j :: 0 <= j < |entries| ==> entries[j].path != resolved.value)
  }

  ghost predicate TellsOf(entries: seq<ListedEntry>, k: nat, told: Metadata)
    requires k < |entries|
  {
    && told.specId == entries[k].specId && told.id == entries[k].id
    && told.name == entries[k].path && told.parent == entries[k].parent
    && TargetFits(entries, k, told.fileType, told.target)
  }

  lemma {:induction false} PathIdsAre(entries: seq<ListedEntry>, path: Text) returns (j: nat)
    ensures path !in PathIds(entries) ==> forall i :: 0 <= i < |entries| ==> entries[i].path != path
    ensures path in PathIds(entries) ==>
              j < |entries| && IsLastNamed(entries, j, path) && PathIds(entries)[path] == entries[j].id
    decreases |entries|
  {
    j := 0;
    if entries != [] {
      var initial, last := entries[..|entries| - 1], entries[|entries| - 1];
      j := PathIdsAre(initial, path);
      assert entries == initial + [last];
      if last.path == path {
        j := |entries| - 1;
      }
    }
  }

  lemma HolderIsFirst(entries: seq<ListedEntry>, k: nat, identity: nat)
    requires k <= |entries| && FirstHolder(entries[..k], identity).Some?
    ensures exists j :: 0 <= j < k && IsFirstOf(entries, j, identity)
                        && FirstHolder(entries[..k], identity) == Some(entries[j].id)
  {
    hide FirstHolder;
    var j := LinksNameEarlierFiles(entries[..k], identity);
    assert entries[..k][..j] == entries[..j];
    FirstHolderIff(entries[..j], identity);
    assert IsFirstOf(entries, j, identity);
  }

  lemma MetadataTells(entries: seq<ListedEntry>, k: nat)
    requires k < |entries|
    ensures TellsOf(entries, k, MetadataOf(entries[..k], entries[k], PathIds(entries)))
  {
    hide FirstHolder, PathIds, IsFirstOf, IsLastNamed;
    var kind := entries[k].kind;
    if kind.RegularEntry? {
      FirstHolderIff(entries[..k], kind.identity);
      if FirstHolder(entries[..k], kind.identity).Some? {
        HolderIsFirst(entries, k, kind.identity);
      }
    } else if kind.SymlinkEntry? && kind.resolved.Some? {
      var j := PathIdsAre(entries, kind.resolved.value);
    }
  }

  lemma EntriesOfPrefix(items: seq<PendingItem>, k: nat)
    requires k < |items| && items[k].EntryItem?
    ensures var entries, m := EntriesOf(items), |EntriesOf(items[..k])|;
            m < |entries| && entries[..m] == EntriesOf(items[..k]) && entries[m] == items[k].entry
  {
    var upTo := items[..k + 1];
    assert upTo[..k] == items[..k];
    assert EntriesOf(upTo) == EntriesOf(items[..k]) + [items[k].entry];
    EntriesOfAppend(upTo, items[k + 1..]);
    assert upTo + items[k + 1..] == items;
  }

  lemma {:induction false} AnnouncedAt(items: seq<PendingItem>, k: nat, pathIds: map<Text, nat>)
    requires k < |items|
    ensures Announcements(items, pathIds)[k] == AnnouncementOf(EntriesOf(items[..k]), items[k], pathIds)
    decreases |items|
  {
    hide AnnouncementOf, EntriesOf;
    var initial := items[..|items| - 1];
    if k < |initial| {
      AnnouncedAt(initial, k, pathIds);
      assert initial[..k] == items[..k];
    }
  }

  /** Each pending item is announced at its own place: an error as itself, an entry by what it is. */
  lemma AnnouncementTells(items: seq<PendingItem>, k: nat)
    requires k < |items|
    ensures var entries, m := EntriesOf(items), |EntriesOf(items[..k])|;
            var sent := Announcements(items, PathIds(entries))[k];
            if items[k].ErrorItem? then sent == Refused(items[k].error)
            else m < |entries| && entries[m] == items[k].entry && sent.Announced? && TellsOf(entries, m, sent.metadata)
  {
    hide EntriesOf, PathIds, Announcements, MetadataOf, TellsOf;
    AnnouncedAt(items, k, PathIds(EntriesOf(items)));
    if items[k].EntryItem? {
      EntriesOfPrefix(items, k);
      MetadataTells(EntriesOf(items), |EntriesOf(items[..k])|);
    }
  }
}
