/** Collecting an approved path into listing entries, within the session's limits. */
module ReceiveTree {
  import opened Bytes
  import opened TransferCommands

  /** What was opened below a path. Directories list their children in name order. */
  datatype Node =
    | RegularNode(size: u64, identity: nat)
    | SymlinkNode(target: Text, resolved: Option<Text>, absolute: bool)
    | DirectoryNode(children: seq<Child>)

  datatype Child = Child(name: Text, node: Node)

  datatype EntryKind =
    | RegularEntry(size: u64, identity: nat)
    | DirectoryEntry
    | SymlinkEntry(target: Text, resolved: Option<Text>, absolute: bool)

  datatype ListedEntry = ListedEntry(specId: Text, id: nat, path: Text, parent: Option<nat>, kind: EntryKind)

  datatype ListingError = TooManyEntries | FileTooLarge | SessionTooLarge

  function Join(path: Text, name: Text): Text {
    if path != [] && path[|path| - 1] == SLASH then path + name else path + [SLASH] + name
  }

  function KindOf(node: Node): EntryKind {
    match node
    case RegularNode(size, identity) => RegularEntry(size, identity)
    case SymlinkNode(target, resolved, absolute) => SymlinkEntry(target, resolved, absolute)
    case DirectoryNode(_) => DirectoryEntry
  }

  /* ---- What a tree amounts to ---- */

  function Count(node: Node): nat
    decreases node, 1
  {
    1 + if node.DirectoryNode? then CountAll(node.children) else 0
  }

  function CountAll(children: seq<Child>): nat
    decreases children, 0
  {
    if children == [] then 0 else CountAll(children[..|children| - 1]) + Count(children[|children| - 1].node)
  }

  /** The bytes one entry would send. */
  function OwnBytes(node: Node): nat {
    match node
    case RegularNode(size, _) => size
    case SymlinkNode(target, _, _) => |target|
    case DirectoryNode(_) => 0
  }

  function TotalBytes(node: Node): nat
    decreases node, 1
  {
    OwnBytes(node) + if node.DirectoryNode? then TotalBytesAll(node.children) else 0
  }

  function TotalBytesAll(children: seq<Child>): nat
    decreases children, 0
  {
    if children == [] then 0 else TotalBytesAll(children[..|children| - 1]) + TotalBytes(children[|children| - 1].node)
  }

  predicate EachFits(node: Node, maxFileBytes: nat)
    decreases node, 1
  {
    OwnBytes(node) <= maxFileBytes && (node.DirectoryNode? ==> EachFitsAll(node.children, maxFileBytes))
  }

  predicate EachFitsAll(children: seq<Child>, maxFileBytes: nat)
    decreases children, 0
  {
    children != [] ==>
      EachFitsAll(children[..|children| - 1], maxFileBytes) && EachFits(children[|children| - 1].node, maxFileBytes)
  }

  /** The entries of a tree, parents before their children, numbered from `id` on. */
  function Preorder(specId: Text, path: Text, parent: Option<nat>, node: Node, id: nat): (entries: seq<ListedEntry>)
    ensures |entries| == Count(node)
    decreases node, 1
  {
    [ListedEntry(specId, id, path, parent, KindOf(node))]
    + if node.DirectoryNode? then PreorderAll(specId, path, id, node.children, id + 1) else []
  }

  function PreorderAll(specId: Text, path: Text, parent: nat, children: seq<Child>,
                       id: nat): (entries: seq<ListedEntry>)
    ensures |entries| == CountAll(children)
    decreases children, 0
  {
    if children == [] then [] else
      var initial, last := children[..|children| - 1], children[|children| - 1];
      PreorderAll(specId, path, parent, initial, id)
      + Preorder(specId, Join(path, last.name), Some(parent), last.node, id + CountAll(initial))
  }

  predicate IsDirectoryAt(entries: seq<ListedEntry>, index: int) {
    0 <= index < |entries| && entries[index].kind == DirectoryEntry
  }

  /** Ids count up from `id`; each entry's parent is an earlier directory, or the one above the whole tree. */
  ghost predicate Rooted(entries: seq<ListedEntry>, id: nat, parent: Option<nat>) {
    && (forall k :: 0 <= k < |entries| ==> entries[k].id == id + k)
    && (forall k :: 0 <= k < |entries| ==>
          entries[k].parent == parent
          || (entries[k].parent.Some? && id <= entries[k].parent.value < id + k
              && IsDirectoryAt(entries, entries[k].parent.value - id)))
  }

  lemma RootedAppend(entries: seq<ListedEntry>, more: seq<ListedEntry>, id: nat, parent: Option<nat>)
    requires Rooted(entries, id, parent) && Rooted(more, id + |entries|, parent)
    ensures Rooted(entries + more, id, parent)
  {}

  /** Entries below a directory are rooted in the directory's own parent once it heads them. */
  lemma RootedUnder(head: ListedEntry, more: seq<ListedEntry>)
    requires head.kind == DirectoryEntry && Rooted(more, head.id + 1, Some(head.id))
    ensures Rooted([head] + more, head.id, head.parent)
  {}

  lemma {:induction false} PreorderRooted(specId: Text, path: Text, parent: Option<nat>, node: Node, id: nat)
    ensures Rooted(Preorder(specId, path, parent, node, id), id, parent)
    decreases node, 1
  {
    hide Rooted;
    var head := ListedEntry(specId, id, path, parent, KindOf(node));
    RootedOne(head);
    if node.DirectoryNode? {
      PreorderAllRooted(specId, path, id, node.children, id + 1);
      RootedUnder(head, PreorderAll(specId, path, id, node.children, id + 1));
    } else {
      assert [head] + [] == [head];
    }
  }

  lemma RootedOne(head: ListedEntry)
    ensures Rooted([head], head.id, head.parent)
    ensures forall id: nat, parent: Option<nat> :: Rooted([], id, parent)
  {}

  lemma PreorderAllUnfold(specId: Text, path: Text, parent: nat, children: seq<Child>, id: nat)
    requires children != []
    ensures var initial, last := children[..|children| - 1], children[|children| - 1];
            PreorderAll(specId, path, parent, children, id)
            == PreorderAll(specId, path, parent, initial, id)
             + Preorder(specId, Join(path, last.name), Some(parent), last.node, id + CountAll(initial))
  {}

  lemma {:induction false} PreorderAllRooted(specId: Text, path: Text, parent: nat, children: seq<Child>, id: nat)
    ensures Rooted(PreorderAll(specId, path, parent, children, id), id, Some(parent))
    decreases children, 0
  {
    hide Rooted, Preorder, PreorderAll, CountAll;
    NoEntries(specId, path, parent, id);
    if children != [] {
      var initial, last := children[..|children| - 1], children[|children| - 1];
      PreorderAllRooted(specId, path, parent, initial, id);
      PreorderRooted(specId, Join(path, last.name), Some(parent), last.node, id + CountAll(initial));
      PreorderAllUnfold(specId, path, parent, children, id);
      RootedAppend(PreorderAll(specId, path, parent, initial, id),
                   Preorder(specId, Join(path, last.name), Some(parent), last.node, id + CountAll(initial)), id,
                     Some(parent));
    }
  }

  lemma NoEntries(specId: Text, path: Text, parent: nat, id: nat)
    ensures PreorderAll(specId, path, parent, [], id) == [] && Rooted([], id, Some(parent))
  {}

  /* ---- Collecting ---- */

  datatype Bounds = Bounds(maxEntries: nat, maxFileBytes: u64, maxSessionBytes: u64)

  /** The tree fits what is left: its entries, each of its files, and its bytes. */
  predicate Fits(b: Bounds, entries: nat, planned: nat, node: Node) {
    && entries + Count(node) <= b.maxEntries
    && EachFits(node, b.maxFileBytes)
    && planned + TotalBytes(node) <= b.maxSessionBytes
  }

  /** A refusal is right about what does not fit. */
  predicate Refuses(b: Bounds, entries: nat, planned: nat, node: Node, error: ListingError) {
    match error
    case TooManyEntries => entries + Count(node) > b.maxEntries
    case FileTooLarge => !EachFits(node, b.maxFileBytes)
    case SessionTooLarge => planned + TotalBytes(node) > b.maxSessionBytes
  }

  lemma {:induction false} PrefixBounds(children: seq<Child>, i: nat, maxFileBytes: nat)
    requires i < |children|
    ensures CountAll(children[..i]) + Count(children[i].node) <= CountAll(children)
    ensures TotalBytesAll(children[..i]) + TotalBytes(children[i].node) <= TotalBytesAll(children)
    ensures EachFitsAll(children, maxFileBytes) ==> EachFits(children[i].node, maxFileBytes)
  {
    hide Count, TotalBytes, EachFits;
    if i < |children| - 1 {
      PrefixBounds(children[..|children| - 1], i, maxFileBytes);
      assert children[..|children| - 1][..i] == children[..i];
    }
  }

  lemma {:induction false} ChildrenCount(children: seq<Child>)
    ensures |children| <= CountAll(children)
  {
    if children != [] {
      ChildrenCount(children[..|children| - 1]);
    }
  }

  lemma SumsSnoc(children: seq<Child>, i: nat, maxFileBytes: nat)
    requires i < |children|
    ensures children[..i + 1] == children[..i] + [children[i]]
    ensures CountAll(children[..i + 1]) == CountAll(children[..i]) + Count(children[i].node)
    ensures TotalBytesAll(children[..i + 1]) == TotalBytesAll(children[..i]) + TotalBytes(children[i].node)
    ensures EachFitsAll(children[..i + 1], maxFileBytes) <==>
              EachFitsAll(children[..i], maxFileBytes) && EachFits(children[i].node, maxFileBytes)
  {}

  lemma PreorderSnoc(specId: Text, path: Text, parent: nat, children: seq<Child>, i: nat, id: nat)
    requires i < |children|
    ensures PreorderAll(specId, path, parent, children[..i + 1], id)
         == PreorderAll(specId, path, parent, children[..i], id)
          + Preorder(specId, Join(path, children[i].name), Some(parent), children[i].node, id + CountAll(children[..i]))
  {
    hide PreorderAll, Preorder, CountAll;
    PreorderAllUnfold(specId, path, parent, children[..i + 1], id);
    assert children[..i + 1][..i] == children[..i];
  }

  class ReceiveTreeCollector {
    const specId: Text
    const bounds: Bounds
    var entries: seq<ListedEntry>
    var plannedBytes: nat
    var nextActualId: nat

    /** The id counter has room for every entry that may still come, so it does not wrap. */
    predicate Valid()
      reads this
    {
      && |entries| <= bounds.maxEntries && plannedBytes <= bounds.maxSessionBytes
      && nextActualId + (bounds.maxEntries - |entries|) < U64_LIMIT
    }

    constructor (specId: Text, firstActualId: nat, bounds: Bounds)
      requires firstActualId + bounds.maxEntries < U64_LIMIT
      ensures Valid() && entries == [] && plannedBytes == 0 && nextActualId == firstActualId
      ensures this.specId == specId && this.bounds == bounds
    {
      this.specId, this.bounds := specId, bounds;
      entries, plannedBytes, nextActualId := [], 0, firstActualId;
    }

    method ReserveData(size: nat) returns (r: Result<(), ListingError>)
      requires plannedBytes <= bounds.maxSessionBytes
      modifies this`plannedBytes
      ensures plannedBytes <= bounds.maxSessionBytes
      ensures r.Ok? ==> size <= bounds.maxFileBytes && plannedBytes == old(plannedBytes) + size
      ensures r == Err(FileTooLarge) ==> size > bounds.maxFileBytes
      ensures r == Err(SessionTooLarge) ==> old(plannedBytes) + size > bounds.maxSessionBytes
      ensures r.Err? ==> r.error != TooManyEntries
    {
      if size > bounds.maxFileBytes {
        return Err(FileTooLarge);
      }
      var total := plannedBytes + size;
      if total > bounds.maxSessionBytes {
        return Err(SessionTooLarge);
      }
      plannedBytes := total;
      return Ok(());
    }

    /** Count the children as they are read, and stop as soon as they cannot all be listed. */
    method CountChildren(children: seq<Child>) returns (ok: bool)
      requires |entries| <= bounds.maxEntries
      ensures ok <==> |children| <= bounds.maxEntries - |entries|
    {
      var listed := 0;
      while listed < |children|
        invariant 0 <= listed <= |children| && listed <= bounds.maxEntries - |entries|
      {
        if listed >= bounds.maxEntries - |entries| {
          return false;
        }
        listed := listed + 1;
      }
      return true;
    }

    /** A tree is taken whole exactly when it fits; what was collected of a refused one is thrown away. */
    method Collect(path: Text, parent: Option<nat>, node: Node) returns (r: Result<(), ListingError>)
      requires Valid()
      modifies this
      ensures r.Ok? ==> Valid() && Fits(bounds, |old(entries)|, old(plannedBytes), node)
      ensures r.Ok? ==> entries == old(entries) + Preorder(specId, path, parent, node, old(nextActualId))
      ensures r.Ok? ==> plannedBytes == old(plannedBytes) + TotalBytes(node)
      ensures r.Ok? ==> nextActualId == old(nextActualId) + Count(node)
      ensures r.Err? ==> Refuses(bounds, |old(entries)|, old(plannedBytes), node, r.error)
      decreases node, 1
    {
      hide PreorderAll, CountAll, TotalBytesAll, EachFitsAll;
      if |entries| >= bounds.maxEntries {
        return Err(TooManyEntries);
      }
      var actualId := nextActualId;
      nextActualId := (nextActualId + 1) % U64_LIMIT;
      var entry := ListedEntry(specId, actualId, path, parent, KindOf(node));
      if !node.DirectoryNode? {
        r := ReserveData(OwnBytes(node));
        if r.Ok? {
          entries := entries + [entry];
          assert [entry] + [] == [entry];
        }
        return;
      }
      entries := entries + [entry];
      ChildrenCount(node.children);
      var ok := CountChildren(node.children);
      if !ok {
        return Err(TooManyEntries);
      }
      r := CollectChildren(path, actualId, node.children);
    }

    method CollectChildren(path: Text, parent: nat, children: seq<Child>) returns (r: Result<(), ListingError>)
      requires Valid()
      modifies this
      ensures r.Ok? ==> Valid() && |old(entries)| + CountAll(children) <= bounds.maxEntries
      ensures r.Ok? ==> EachFitsAll(children, bounds.maxFileBytes)
      ensures r.Ok? ==> entries == old(entries) + PreorderAll(specId, path, parent, children, old(nextActualId))
      ensures r.Ok? ==> plannedBytes == old(plannedBytes) + TotalBytesAll(children)
      ensures r.Ok? ==> nextActualId == old(nextActualId) + CountAll(children)
      ensures r == Err(TooManyEntries) ==> |old(entries)| + CountAll(children) > bounds.maxEntries
      ensures r == Err(FileTooLarge) ==> !EachFitsAll(children, bounds.maxFileBytes)
      ensures r == Err(SessionTooLarge) ==> old(plannedBytes) + TotalBytesAll(children) > bounds.maxSessionBytes
      decreases children, 0
    {
      hide Preorder, PreorderAll, Count, CountAll, TotalBytes, TotalBytesAll, EachFits, EachFitsAll;
      NothingCollected(specId, path, parent, nextActualId, bounds.maxFileBytes);
      assert children[..0] == [];
      var i := 0;
      while i < |children|
        invariant 0 <= i <= |children| && Valid()
        invariant entries == old(entries) + PreorderAll(specId, path, parent, children[..i], old(nextActualId))
        invariant nextActualId == old(nextActualId) + CountAll(children[..i])
        invariant plannedBytes == old(plannedBytes) + TotalBytesAll(children[..i])
        invariant EachFitsAll(children[..i], bounds.maxFileBytes)
      {
        PrefixBounds(children, i, bounds.maxFileBytes);
        SumsSnoc(children, i, bounds.maxFileBytes);
        PreorderSnoc(specId, path, parent, children, i, old(nextActualId));
        r := Collect(Join(path, children[i].name), Some(parent), children[i].node);
        if r.Err? {
          return;
        }
        i := i + 1;
      }
      assert children[..i] == children;
      return Ok(());
    }
  }

  lemma NothingCollected(specId: Text, path: Text, parent: nat, id: nat, maxFileBytes: nat)
    ensures PreorderAll(specId, path, parent, [], id) == [] && CountAll([]) == 0 && TotalBytesAll([]) == 0
    ensures EachFitsAll([], maxFileBytes)
  {}

  datatype CollectedTree = CollectedTree(entries: seq<ListedEntry>, plannedBytes: nat, nextActualId: nat)

  /** Collect one path with a fresh collector. */
  method CollectReceiveTree(specId: Text, path: Text, node: Node, firstActualId: nat, bounds: Bounds)
    returns (r: Result<CollectedTree, ListingError>)
    requires firstActualId + bounds.maxEntries < U64_LIMIT
    ensures r.Ok? <==> Fits(bounds, 0, 0, node)
    ensures r.Ok? ==> r.value == CollectedTree(Preorder(specId, path, None, node, firstActualId), TotalBytes(node),
                                               firstActualId + Count(node))
    ensures r.Err? ==> Refuses(bounds, 0, 0, node, r.error)
  {
    hide Preorder, Count, TotalBytes, EachFits;
    var collector := new ReceiveTreeCollector(specId, firstActualId, bounds);
    var collected := collector.Collect(path, None, node);
    if collected.Err? {
      return Err(collected.error);
    }
    assert [] + Preorder(specId, path, None, node, firstActualId) == Preorder(specId, path, None, node, firstActualId);
    return Ok(CollectedTree(collector.entries, collector.plannedBytes, collector.nextActualId));
  }
}
