/**
 * The operations of src/utils/treeUtils.js. Each mutator of the source first
 * clones the whole tree (`cloneTree`) and then edits the clone through a
 * reference found by `findNodeById`. Dafny values are never shared, so the
 * clone is the value itself, a found reference is an index `Path` and an edit
 * through it is `ReplaceAt`/`RemoveAt`. The two places where the source works
 * step by step in a loop (`removeRecursive` and the ancestor loop of
 * `ensureNodeIsVisible`) are methods proved equal to the functions that
 * specify them.
 */
module TreeUtils {
  import opened Wrappers
  import opened TreeModel

  // ---------------------------------------------------------------------------
  // Finders
  // ---------------------------------------------------------------------------

  /** What `findNodeById` returns: the node and its parent folder (`None` for a root). */
  datatype Found = Found(node: Node, parent: Option<Node>)

  /** What `findNodeAndIndexById` returns; `index` is -1 and both nodes are `None` when nothing is found. */
  datatype Located = Located(node: Option<Node>, parent: Option<Node>, index: int)

  /**
   * findNodeById: the first node in depth-first pre-order carrying `id`, with
   * its parent. A falsy (empty) id finds nothing.
   */
  function FindNodeById(tree: Forest, id: string): (r: Option<Found>)
    ensures r.Some? <==> id != "" && id in Ids(tree)
    ensures r.Some? ==> r.value.node.id == id
    ensures r.Some? ==> exists p :: FirstMatch(tree, p, id) && ValidPath(tree, p) && NodeAt(tree, p) == r.value.node &&
                                    (|p| == 1 ==> r.value.parent.None?) &&
                                    (|p| > 1 ==> ValidPath(tree, p[..|p| - 1]) &&
                                                 r.value.parent == Some(NodeAt(tree, p[..|p| - 1])))
    ensures r.Some? && r.value.parent.None? ==> r.value.node in tree
    ensures r.Some? && r.value.parent.Some? ==>
              r.value.parent.value.Folder? && r.value.node in r.value.parent.value.children
  {
    LocateSpec(tree, id);
    if id == "" then None
    else match Locate(tree, id)
      case None => None
      case Some(p) =>
        ParentAtSpec(tree, p, None);
        Some(Found(NodeAt(tree, p), ParentAt(tree, p, None)))
  }

  /** Unfolds the finder at a known search result. */
  lemma FoundAtPath(tree: Forest, id: string, p: Path)
    requires id != "" && Locate(tree, id) == Some(p)
    ensures FindNodeById(tree, id) == Some(Found(NodeAt(tree, p), ParentAt(tree, p, None)))
  {
  }

  /** Unfolds the finder when the search fails. */
  lemma NotFound(tree: Forest, id: string)
    requires id == "" || Locate(tree, id).None?
    ensures FindNodeById(tree, id).None?
  {
  }

  /** The sequence a found node sits in: its parent's children, or the root sequence. */
  function Siblings(tree: Forest, parent: Option<Node>): seq<Node>
  {
    if parent.Some? && parent.value.Folder? then parent.value.children else tree
  }

  /**
   * findNodeAndIndexById: the same search, also reporting the node's index
   * among its siblings, or index -1 when nothing is found.
   */
  function FindNodeAndIndexById(tree: Forest, id: string): (r: Located)
    ensures r.index == -1 <==> FindNodeById(tree, id).None?
    ensures r.index == -1 ==> r.node.None? && r.parent.None?
    ensures r.index != -1 ==>
              r.node.Some? && FindNodeById(tree, id) == Some(Found(r.node.value, r.parent)) &&
              0 <= r.index < |Siblings(tree, r.parent)| && Siblings(tree, r.parent)[r.index] == r.node.value
  {
    LocateSpec(tree, id);
    if id == "" then Located(None, None, -1)
    else match Locate(tree, id)
      case None => Located(None, None, -1)
      case Some(p) =>
        ParentAtSpec(tree, p, None);
        Located(Some(NodeAt(tree, p)), ParentAt(tree, p, None), p[|p| - 1])
  }

  /**
   * getPathToNode: the ids from a root down to the first node carrying `id`,
   * both included; empty when the id is absent or falsy.
   */
  function GetPathToNode(tree: Forest, id: string): (r: seq<string>)
    ensures r == [] <==> id == "" || id !in Ids(tree)
    ensures r != [] ==> r[|r| - 1] == id && IsChain(tree, r)
  {
    LocateSpec(tree, id);
    if id == "" then []
    else match Locate(tree, id)
      case None => []
      case Some(p) =>
        IdsAlongChain(tree, p);
        IdsAlong(tree, p)
  }

  /** The path and the finder agree: the id before the last one names the parent that `findNodeById` reports. */
  lemma PathEndsAtFoundNode(tree: Forest, id: string)
    requires FindNodeById(tree, id).Some?
    ensures var path, found := GetPathToNode(tree, id), FindNodeById(tree, id).value;
            (|path| == 1 <==> found.parent.None?) &&
            (|path| > 1 ==> path[|path| - 2] == found.parent.value.id)
  {
    LocateSpec(tree, id);
    var p := Locate(tree, id).value;
    ParentAtSpec(tree, p, None);
    IdsAlongAt(tree, p, |p| - 1);
    if |p| > 1 {
      IdsAlongAt(tree, p, |p| - 2);
      assert p[..|p| - 1][..|p| - 2 + 1] == p[..|p| - 2 + 1];
    }
  }

  // ---------------------------------------------------------------------------
  // Removal
  // ---------------------------------------------------------------------------

  /** removeNodeFromTree as a value: the first pre-order node carrying `id`, with its subtree, is gone. */
  function Remove(tree: Forest, id: string): (r: Forest)
    ensures FindNodeById(tree, id).None? ==> r == tree
    ensures FindNodeById(tree, id).Some? ==>
              multiset(Ids(r)) + multiset(SubtreeIds(FindNodeById(tree, id).value.node)) == multiset(Ids(tree))
  {
    LocateSpec(tree, id);
    if id == "" then tree
    else match Locate(tree, id)
      case None => tree
      case Some(p) =>
        RemoveIds(tree, p);
        RemoveAt(tree, p)
  }

  /** With unique ids, a removed id, and every id below it, can no longer be found; the ids stay unique. */
  lemma RemoveForgetsSubtree(tree: Forest, id: string)
    requires UniqueIds(tree) && FindNodeById(tree, id).Some?
    ensures forall x :: x in SubtreeIds(FindNodeById(tree, id).value.node) ==> FindNodeById(Remove(tree, id), x).None?
    ensures FindNodeById(Remove(tree, id), id).None?
    ensures UniqueIds(Remove(tree, id))
  {
    var gone := SubtreeIds(FindNodeById(tree, id).value.node);
    var r := Remove(tree, id);
    forall x | x in gone ensures x !in Ids(r) {
      assert multiset(Ids(r))[x] + multiset(gone)[x] == multiset(Ids(tree))[x];
    }
    forall x ensures multiset(Ids(r))[x] <= 1 {
      assert multiset(Ids(r))[x] + multiset(gone)[x] == multiset(Ids(tree))[x];
    }
  }

  /**
   * Removal changes nothing outside the removed subtree. The subtree's ids
   * were one block of the pre-order list, at the removed node's position.
   * Every other node is still there with its own fields and the same ids from
   * its root down to it, so under the same parent; only the later siblings of
   * the removed node move one place up. Every node left is one of these.
   */
  lemma RemoveKeepsRest(tree: Forest, id: string, q: Path)
    requires FindNodeById(tree, id).Some?
    ensures var p, r := Locate(tree, id).value, Remove(tree, id);
            Pos(tree, p) <= |Ids(r)| &&
            Ids(tree) == Ids(r)[..Pos(tree, p)] + SubtreeIds(NodeAt(tree, p)) + Ids(r)[Pos(tree, p)..]
    ensures var p, r := Locate(tree, id).value, Remove(tree, id);
            ValidPath(tree, q) && !AtOrBelow(p, q) ==>
              ValidPath(r, Shift(p, q)) && Label(NodeAt(r, Shift(p, q))) == Label(NodeAt(tree, q)) &&
              IdsAlong(r, Shift(p, q)) == IdsAlong(tree, q)
    ensures var p, r := Locate(tree, id).value, Remove(tree, id);
            ValidPath(r, q) ==> exists q0 :: ValidPath(tree, q0) && !AtOrBelow(p, q0) && Shift(p, q0) == q
  {
    var p := Locate(tree, id).value;
    assert Remove(tree, id) == RemoveAt(tree, p);
    RemoveIdsInPlace(tree, p);
    if ValidPath(tree, q) && !AtOrBelow(p, q) {
      RemoveFrame(tree, p, q);
    }
    if ValidPath(RemoveAt(tree, p), q) {
      var q0 := RemoveOrigin(tree, p, q);
    }
  }

  /**
   * removeRecursive: scan `nodes` by index; splice out the first node whose id
   * matches, else recurse into a folder's children, stopping at the first
   * removal. Reports whether something was removed.
   */
  method RemoveRecursive(nodes: seq<Node>, id: string) returns (out: seq<Node>, removed: bool)
    ensures removed <==> Locate(nodes, id).Some?
    ensures out == if removed then RemoveAt(nodes, Locate(nodes, id).value) else nodes
    decreases nodes
  {
    var i := 0;
    while i < |nodes|
      invariant 0 <= i <= |nodes|
      invariant LocateFrom(nodes, id, i) == Locate(nodes, id)
    {
      if nodes[i].id == id {
        out, removed := nodes[..i] + nodes[i + 1..], true;
        return;
      }
      if nodes[i].Folder? {
        var kids, done := RemoveRecursive(nodes[i].children, id);
        if done {
          ghost var p := [i] + Locate(nodes[i].children, id).value;
          assert p[0] == i && p[1..] == Locate(nodes[i].children, id).value;
          assert LocateFrom(nodes, id, i) == Some(p);
          out, removed := nodes[i := nodes[i].(children := kids)], true;
          return;
        }
      }
      i := i + 1;
    }
    out, removed := nodes, false;
  }

  /** removeNodeFromTree: a falsy id leaves the tree as it is; otherwise `removeRecursive` runs on the copy. */
  method RemoveNodeFromTree(tree: Forest, id: string) returns (r: Forest)
    ensures r == Remove(tree, id)
  {
    if id == "" {
      return tree;
    }
    var removed;
    r, removed := RemoveRecursive(tree, id);
  }

  // ---------------------------------------------------------------------------
  // Adding, renaming, toggling
  // ---------------------------------------------------------------------------

  /**
   * The folder a node is appended into, when `targetId` names one: a falsy id,
   * a missing node or a file gives `None` (the callers then append at the root).
   */
  function TargetFolder(tree: Forest, targetId: Option<string>): (r: Option<Path>)
    ensures r.None? <==> targetId.None? || FindNodeById(tree, targetId.value).None? ||
                         !FindNodeById(tree, targetId.value).value.node.Folder?
    ensures r.Some? ==> ValidPath(tree, r.value) && NodeAt(tree, r.value).Folder? &&
                        NodeAt(tree, r.value) == FindNodeById(tree, targetId.value).value.node &&
                        FirstMatch(tree, r.value, targetId.value)
  {
    if targetId.None? || targetId.value == "" then None
    else match Locate(tree, targetId.value)
      case None => None
      case Some(p) => if NodeAt(tree, p).Folder? then Some(p) else None
  }

  /** The folder at `p` with `child` appended to its children and opened. */
  function WithLastChild(folder: Node, child: Node): Node
    requires folder.Folder?
  {
    folder.(children := folder.children + [child], isOpen := true)
  }

  /** Appending a child to the folder at `p`: the forest gains exactly the child's ids. */
  lemma AppendIntoFolder(tree: Forest, p: Path, child: Node)
    requires ValidPath(tree, p) && NodeAt(tree, p).Folder?
    ensures ValidPath(ReplaceAt(tree, p, WithLastChild(NodeAt(tree, p), child)), p)
    ensures NodeAt(ReplaceAt(tree, p, WithLastChild(NodeAt(tree, p), child)), p) == WithLastChild(NodeAt(tree, p), child)
    ensures multiset(Ids(ReplaceAt(tree, p, WithLastChild(NodeAt(tree, p), child))))
         == multiset(Ids(tree)) + multiset(SubtreeIds(child))
  {
    var folder := NodeAt(tree, p);
    var folder' := WithLastChild(folder, child);
    ReplaceAtSpec(tree, p, folder');
    IdsConcat(folder.children, [child]);
    IdsCons([child]);
    assert SubtreeIds(folder') == SubtreeIds(folder) + SubtreeIds(child);
    ReplaceGrowIds(tree, p, folder', multiset(SubtreeIds(child)));
  }

  /**
   * addNode: a node with a falsy id is refused and the tree returned as it is;
   * a parent folder receives the node as its last child and is opened; a falsy
   * parent id, or a parent that is missing or is a file, appends at the root.
   */
  function AddNode(tree: Forest, parentId: Option<string>, nodeToAdd: Node): (r: Forest)
    ensures nodeToAdd.id == "" ==> r == tree
    ensures nodeToAdd.id != "" ==> multiset(Ids(r)) == multiset(Ids(tree)) + multiset(SubtreeIds(nodeToAdd))
    ensures nodeToAdd.id != "" && TargetFolder(tree, parentId).None? ==> r == tree + [nodeToAdd]
    ensures nodeToAdd.id != "" && TargetFolder(tree, parentId).Some? ==>
              var p := TargetFolder(tree, parentId).value;
              var folder := NodeAt(tree, p);
              ValidPath(r, p) && NodeAt(r, p).Folder? && NodeAt(r, p).isOpen &&
              NodeAt(r, p).children == folder.children + [nodeToAdd] &&
              Label(NodeAt(r, p)) == Label(folder).(isOpen := true)
  {
    if nodeToAdd.id == "" then tree
    else match TargetFolder(tree, parentId)
      case None =>
        IdsConcat(tree, [nodeToAdd]);
        tree + [nodeToAdd]
      case Some(p) =>
        AppendIntoFolder(tree, p, nodeToAdd);
        ReplaceAt(tree, p, WithLastChild(NodeAt(tree, p), nodeToAdd))
  }

  /**
   * Adding into a folder changes no other node: every path of the tree stays
   * valid and keeps its node's fields, the folder being opened, and the only
   * new paths lead into the appended node, the folder's new last child.
   */
  lemma AddNodeKeepsRest(tree: Forest, parentId: Option<string>, n: Node, q: Path)
    requires n.id != "" && TargetFolder(tree, parentId).Some?
    ensures var r, p := AddNode(tree, parentId, n), TargetFolder(tree, parentId).value;
            ValidPath(tree, q) ==>
              ValidPath(r, q) &&
              Label(NodeAt(r, q)) == if q == p then Label(NodeAt(tree, p)).(isOpen := true) else Label(NodeAt(tree, q))
    ensures var r, p := AddNode(tree, parentId, n), TargetFolder(tree, parentId).value;
            ValidPath(r, q) && !ValidPath(tree, q) ==>
              |p| < |q| && q[..|p| + 1] == p + [|NodeAt(tree, p).children|]
  {
    var p := TargetFolder(tree, parentId).value;
    assert AddNode(tree, parentId, n) == ReplaceAt(tree, p, WithLastChild(NodeAt(tree, p), n));
    if Below(p, q) {
      if ValidPath(tree, q) {
        AppendKeepsOldChildren(tree, p, n, q);
      }
      if !ValidPath(tree, q) {
        AppendOnlyNewChild(tree, p, n, q);
      }
    } else {
      ReplaceFrame(tree, p, WithLastChild(NodeAt(tree, p), n), q);
    }
  }

  /** A path below a folder that gains a last child still leads to the same node. */
  lemma AppendKeepsOldChildren(tree: Forest, p: Path, n: Node, q: Path)
    requires ValidPath(tree, p) && NodeAt(tree, p).Folder? && Below(p, q) && ValidPath(tree, q)
    ensures var r := ReplaceAt(tree, p, WithLastChild(NodeAt(tree, p), n));
            ValidPath(r, q) && NodeAt(r, q) == NodeAt(tree, q)
  {
    var folder := NodeAt(tree, p);
    var r := ReplaceAt(tree, p, WithLastChild(folder, n));
    ReplaceAtSpec(tree, p, WithLastChild(folder, n));
    var s := q[|p|..];
    assert p + s == q;
    PathSplit(tree, p, q);
    AppendedPath(folder.children, [n], s);
    PathAppend(r, p, s);
  }

  /** A path below a folder that gains a last child, and that was not there before, leads into that child. */
  lemma AppendOnlyNewChild(tree: Forest, p: Path, n: Node, q: Path)
    requires ValidPath(tree, p) && NodeAt(tree, p).Folder? && Below(p, q) && !ValidPath(tree, q)
    ensures var r := ReplaceAt(tree, p, WithLastChild(NodeAt(tree, p), n));
            ValidPath(r, q) ==> q[..|p| + 1] == p + [|NodeAt(tree, p).children|]
  {
    var folder := NodeAt(tree, p);
    var r := ReplaceAt(tree, p, WithLastChild(folder, n));
    ReplaceAtSpec(tree, p, WithLastChild(folder, n));
    if ValidPath(r, q) {
      var s := q[|p|..];
      assert p + s == q;
      PathSplit(r, p, q);
      if s[0] < |folder.children| {
        AppendedPath(folder.children, [n], s);
        PathAppend(tree, p, s);
      }
      assert q[..|p| + 1] == p + [s[0]];
    }
  }

  /**
   * Adding a node whose ids are all new keeps the ids of the tree unique.
   */
  lemma AddFreshKeepsIdsUnique(tree: Forest, parentId: Option<string>, n: Node)
    requires UniqueIds(tree) && Distinct(SubtreeIds(n))
    requires forall x :: x in SubtreeIds(n) ==> x !in Ids(tree)
    ensures UniqueIds(AddNode(tree, parentId, n))
  {
    var r := AddNode(tree, parentId, n);
    forall x ensures multiset(Ids(r))[x] <= 1 {
      if x in SubtreeIds(n) {
        assert multiset(Ids(tree))[x] == 0;
      } else {
        assert multiset(SubtreeIds(n))[x] == 0;
      }
    }
  }

  /**
   * A new node added without a target folder becomes the last root and is
   * found there, with no parent.
   */
  lemma AddAtRootIsFound(tree: Forest, parentId: Option<string>, n: Node)
    requires UniqueIds(tree) && n.id != "" && Distinct(SubtreeIds(n))
    requires forall x :: x in SubtreeIds(n) ==> x !in Ids(tree)
    requires TargetFolder(tree, parentId).None?
    ensures AddNode(tree, parentId, n)[|tree|] == n
    ensures FindNodeById(AddNode(tree, parentId, n), n.id) == Some(Found(n, None))
  {
    AddFreshKeepsIdsUnique(tree, parentId, n);
    FoundAsLastRoot(AddNode(tree, parentId, n), n);
  }

  /** With unique ids, the last root node is found without a parent. */
  lemma FoundAsLastRoot(r: Forest, n: Node)
    requires UniqueIds(r) && n.id != "" && r != [] && r[|r| - 1] == n
    ensures FindNodeById(r, n.id) == Some(Found(n, None))
  {
    LocateUnique(r, [|r| - 1]);
    FoundAtPath(r, n.id, [|r| - 1]);
  }

  /**
   * A new node added to a target folder is found as that folder's last
   * child, its parent being the folder opened and extended by it.
   */
  lemma AddIntoFolderIsFound(tree: Forest, parentId: Option<string>, n: Node)
    requires UniqueIds(tree) && n.id != "" && Distinct(SubtreeIds(n))
    requires forall x :: x in SubtreeIds(n) ==> x !in Ids(tree)
    requires TargetFolder(tree, parentId).Some?
    ensures var folder := NodeAt(tree, TargetFolder(tree, parentId).value);
            FindNodeById(AddNode(tree, parentId, n), n.id) == Some(Found(n, Some(WithLastChild(folder, n))))
  {
    var r := AddNode(tree, parentId, n);
    var p := TargetFolder(tree, parentId).value;
    AddFreshKeepsIdsUnique(tree, parentId, n);
    AppendIntoFolder(tree, p, n);
    assert r == ReplaceAt(tree, p, WithLastChild(NodeAt(tree, p), n));
    FoundAsLastChild(r, p, n);
  }

  /** With unique ids, the last child of a folder is found with that folder as its parent. */
  lemma FoundAsLastChild(r: Forest, p: Path, n: Node)
    requires UniqueIds(r) && n.id != "" && ValidPath(r, p) && NodeAt(r, p).Folder?
    requires NodeAt(r, p).children != [] && NodeAt(r, p).children[|NodeAt(r, p).children| - 1] == n
    ensures FindNodeById(r, n.id) == Some(Found(n, Some(NodeAt(r, p))))
  {
    var q := p + [|NodeAt(r, p).children| - 1];
    PathAppend(r, p, [|NodeAt(r, p).children| - 1]);
    assert q[..|q| - 1] == p;
    LocateUnique(r, q);
    ParentAtSpec(r, q, None);
    FoundAtPath(r, n.id, q);
  }

  /**
   * renameNode: the first node carrying `id` gets the new name. A falsy or
   * missing id leaves the tree as it is. The renamed node is then found under
   * its id with the new name.
   */
  function RenameNode(tree: Forest, id: string, newName: string): (r: Forest)
    ensures FindNodeById(tree, id).None? ==> r == tree
    ensures Ids(r) == Ids(tree)
    ensures FindNodeById(tree, id).Some? ==>
              FindNodeById(r, id).Some? &&
              FindNodeById(r, id).value.node == FindNodeById(tree, id).value.node.(name := newName)
  {
    if id == "" then tree
    else match Locate(tree, id)
      case None => tree
      case Some(p) =>
        var n := NodeAt(tree, p).(name := newName);
        ReplaceAtSpec(tree, p, n);
        ReplaceSameIds(tree, p, n);
        LocateFromReplace(tree, p, n, id, 0);
        FoundAtPath(tree, id, p);
        FoundAtPath(ReplaceAt(tree, p, n), id, p);
        ReplaceAt(tree, p, n)
  }

  /**
   * Renaming changes nothing but the name of the first node carrying the id:
   * the same paths exist, and every node keeps its fields except that one.
   */
  lemma RenameChangesOnlyName(tree: Forest, id: string, newName: string, q: Path)
    ensures ValidPath(RenameNode(tree, id, newName), q) <==> ValidPath(tree, q)
    ensures ValidPath(tree, q) ==>
              Label(NodeAt(RenameNode(tree, id, newName), q)) ==
                if id != "" && FirstMatch(tree, q, id) then Label(NodeAt(tree, q)).(name := newName)
                else Label(NodeAt(tree, q))
  {
    LocateIsFirstMatch(tree, id, q);
    if id != "" && Locate(tree, id).Some? {
      var p := Locate(tree, id).value;
      ReplaceLabels(tree, p, NodeAt(tree, p).(name := newName), q);
    }
  }

  /** The folder at `p` with its open flag flipped. */
  function Flipped(folder: Node): Node
    requires folder.Folder?
  {
    folder.(isOpen := !folder.isOpen)
  }

  /**
   * toggleFolderOpen: flips the open flag of the first node carrying `id` when
   * it is a folder; a file, a falsy or a missing id leave the tree as it is.
   */
  function ToggleFolderOpen(tree: Forest, id: string): (r: Forest)
    ensures FindNodeById(tree, id).None? || FindNodeById(tree, id).value.node.File? ==> r == tree
    ensures Ids(r) == Ids(tree)
    ensures FindNodeById(tree, id).Some? && FindNodeById(tree, id).value.node.Folder? ==>
              FindNodeById(r, id).Some? &&
              FindNodeById(r, id).value.node == Flipped(FindNodeById(tree, id).value.node)
  {
    if id == "" then tree
    else match Locate(tree, id)
      case None => tree
      case Some(p) =>
        if NodeAt(tree, p).File? then tree
        else
          var n := Flipped(NodeAt(tree, p));
          ReplaceAtSpec(tree, p, n);
          ReplaceSameIds(tree, p, n);
          LocateFromReplace(tree, p, n, id, 0);
          FoundAtPath(tree, id, p);
          FoundAtPath(ReplaceAt(tree, p, n), id, p);
          ReplaceAt(tree, p, n)
  }

  /** Toggling twice restores the tree. */
  lemma ToggleTwice(tree: Forest, id: string)
    ensures ToggleFolderOpen(ToggleFolderOpen(tree, id), id) == tree
  {
    if id != "" && Locate(tree, id).Some? && NodeAt(tree, Locate(tree, id).value).Folder? {
      var p := Locate(tree, id).value;
      var n := Flipped(NodeAt(tree, p));
      LocateFromReplace(tree, p, n, id, 0);
      ReplaceAtSpec(tree, p, n);
      ReplaceTwice(tree, p, n, Flipped(n));
      assert Flipped(n) == NodeAt(tree, p);
      ReplaceAtSpec(tree, p, NodeAt(tree, p));
    }
  }

  /** Toggling changes nothing but the open flag of the folder found. */
  lemma ToggleChangesOnlyOpenFlag(tree: Forest, id: string, q: Path)
    ensures ValidPath(ToggleFolderOpen(tree, id), q) <==> ValidPath(tree, q)
    ensures ValidPath(tree, q) ==>
              Label(NodeAt(ToggleFolderOpen(tree, id), q)) ==
                if id != "" && FirstMatch(tree, q, id) && NodeAt(tree, q).Folder?
                then Label(Flipped(NodeAt(tree, q)))
                else Label(NodeAt(tree, q))
  {
    LocateIsFirstMatch(tree, id, q);
    if id != "" && Locate(tree, id).Some? && NodeAt(tree, Locate(tree, id).value).Folder? {
      var p := Locate(tree, id).value;
      ReplaceLabels(tree, p, Flipped(NodeAt(tree, p)), q);
    }
  }

  // ---------------------------------------------------------------------------
  // Visibility
  // ---------------------------------------------------------------------------

  /**
   * One step of the ancestor loop of ensureNodeIsVisible: the first node
   * carrying `id` in the current tree is opened when it is a closed folder.
   */
  function OpenIfClosed(tree: Forest, id: string): Forest
  {
    if id == "" then tree
    else match Locate(tree, id)
      case None => tree
      case Some(p) =>
        var n := NodeAt(tree, p);
        if n.Folder? && !n.isOpen then ReplaceAt(tree, p, n.(isOpen := true)) else tree
  }

  /** The node with its open flag set when it is a folder. */
  function Opened(n: Node): Node
  {
    if n.Folder? then n.(isOpen := true) else n
  }

  /** The step changes no search, no path and no id. */
  lemma OpenIfClosedKeepsShape(tree: Forest, id: string, x: string, q: Path)
    ensures Ids(OpenIfClosed(tree, id)) == Ids(tree)
    ensures Locate(OpenIfClosed(tree, id), x) == Locate(tree, x)
    ensures ValidPath(OpenIfClosed(tree, id), q) <==> ValidPath(tree, q)
  {
    if id != "" && Locate(tree, id).Some? {
      var p := Locate(tree, id).value;
      var n := NodeAt(tree, p);
      if n.Folder? && !n.isOpen {
        ReplaceSameIds(tree, p, n.(isOpen := true));
        LocateFromReplace(tree, p, n.(isOpen := true), x, 0);
        ReplaceLabels(tree, p, n.(isOpen := true), q);
      }
    }
  }

  /** The step opens the node it finds and changes no other field anywhere. */
  lemma OpenIfClosedLabels(tree: Forest, id: string, q: Path)
    requires ValidPath(tree, q)
    ensures ValidPath(OpenIfClosed(tree, id), q)
    ensures Label(NodeAt(OpenIfClosed(tree, id), q)) ==
              if id != "" && Locate(tree, id) == Some(q) then Opened(Label(NodeAt(tree, q))) else Label(NodeAt(tree, q))
  {
    if id != "" && Locate(tree, id).Some? {
      var p := Locate(tree, id).value;
      var n := NodeAt(tree, p);
      if n.Folder? && !n.isOpen {
        ReplaceLabels(tree, p, n.(isOpen := true), q);
      }
    }
  }

  /** The ancestor loop as a value: one step per id, in order. */
  function OpenEach(tree: Forest, ids: seq<string>): Forest
    decreases |ids|
  {
    if ids == [] then tree else OpenEach(OpenIfClosed(tree, ids[0]), ids[1..])
  }

  /** The loop changes no search, no path and no id. */
  lemma {:induction false} OpenEachKeepsShape(tree: Forest, ids: seq<string>, x: string, q: Path)
    ensures Ids(OpenEach(tree, ids)) == Ids(tree)
    ensures Locate(OpenEach(tree, ids), x) == Locate(tree, x)
    ensures ValidPath(OpenEach(tree, ids), q) <==> ValidPath(tree, q)
    decreases |ids|
  {
    if ids != [] {
      OpenIfClosedKeepsShape(tree, ids[0], x, q);
      OpenEachKeepsShape(OpenIfClosed(tree, ids[0]), ids[1..], x, q);
    }
  }

  /** With unique ids, the loop opens exactly the nodes whose non-falsy id it is given. */
  lemma {:induction false} OpenEachLabels(tree: Forest, ids: seq<string>, q: Path)
    requires UniqueIds(tree) && ValidPath(tree, q)
    ensures ValidPath(OpenEach(tree, ids), q)
    ensures Label(NodeAt(OpenEach(tree, ids), q)) ==
              if NodeAt(tree, q).id != "" && NodeAt(tree, q).id in ids
              then Opened(Label(NodeAt(tree, q)))
              else Label(NodeAt(tree, q))
    decreases |ids|
  {
    if ids != [] {
      var t1 := OpenIfClosed(tree, ids[0]);
      var y := NodeAt(tree, q).id;
      OpenIfClosedKeepsShape(tree, ids[0], ids[0], q);
      OpenIfClosedLabels(tree, ids[0], q);
      LocateUnique(tree, q);
      var hit := ids[0] != "" && Locate(tree, ids[0]) == Some(q);
      assert hit <==> y != "" && ids[0] == y;
      assert NodeAt(t1, q).id == y;
      OpenEachLabels(t1, ids[1..], q);
      assert y in ids <==> y == ids[0] || y in ids[1..];
    }
  }

  /**
   * ensureNodeIsVisible as a value: every ancestor on the path to the first
   * node carrying `id` is opened, the node itself is left as it is.
   */
  function Visible(tree: Forest, id: string): (r: Forest)
    ensures id == "" || id !in Ids(tree) ==> r == tree
  {
    var path := GetPathToNode(tree, id);
    if |path| > 0 then OpenEach(tree, path[..|path| - 1]) else tree
  }

  /** ensureNodeIsVisible: the ancestor loop, each step searching the tree as updated so far. */
  method EnsureNodeIsVisible(tree: Forest, nodeId: string) returns (r: Forest)
    ensures r == Visible(tree, nodeId)
  {
    r := tree;
    if nodeId == "" {
      return;
    }
    var pathIds := GetPathToNode(r, nodeId);
    if |pathIds| > 0 {
      ghost var ancestors := pathIds[..|pathIds| - 1];
      var i := 0;
      while i < |pathIds| - 1
        invariant 0 <= i <= |pathIds| - 1
        invariant OpenEach(r, ancestors[i..]) == OpenEach(tree, ancestors)
      {
        assert ancestors[i..][0] == pathIds[i] && ancestors[i..][1..] == ancestors[i + 1..];
        r := OpenIfClosed(r, pathIds[i]);
        i := i + 1;
      }
      assert ancestors[i..] == [];
    }
  }

  /** Making a node visible changes no search, no path and no id. */
  lemma VisibleKeepsShape(tree: Forest, id: string, x: string, q: Path)
    ensures Ids(Visible(tree, id)) == Ids(tree)
    ensures Locate(Visible(tree, id), x) == Locate(tree, x)
    ensures ValidPath(Visible(tree, id), q) <==> ValidPath(tree, q)
  {
    var path := GetPathToNode(tree, id);
    if |path| > 0 {
      OpenEachKeepsShape(tree, path[..|path| - 1], x, q);
    }
  }

  /** With unique ids, a node's id lies on the path to `p`, short of its end, exactly when the node is above `p`. */
  lemma AncestorIds(tree: Forest, p: Path, q: Path)
    requires UniqueIds(tree) && ValidPath(tree, p) && ValidPath(tree, q)
    ensures |IdsAlong(tree, p)| == |p|
    ensures NodeAt(tree, q).id in IdsAlong(tree, p)[..|p| - 1] <==> |q| < |p| && q == p[..|q|]
  {
    IdsAlongAt(tree, p, 0);
    var ancestors := IdsAlong(tree, p)[..|p| - 1];
    var y := NodeAt(tree, q).id;
    if |q| < |p| && q == p[..|q|] {
      IdsAlongAt(tree, p, |q| - 1);
      assert ancestors[|q| - 1] == y;
    }
    if y in ancestors {
      var k :| 0 <= k < |ancestors| && ancestors[k] == y;
      IdsAlongAt(tree, p, k);
      LocateUnique(tree, q);
      LocateUnique(tree, p[..k + 1]);
    }
  }

  /**
   * With unique ids, making a node visible opens exactly the folders above it
   * (those with a non-falsy id) and changes no other field, the node's own
   * fields included.
   */
  lemma VisibleOpensAncestors(tree: Forest, id: string, q: Path)
    requires UniqueIds(tree) && id != "" && id in Ids(tree) && ValidPath(tree, q)
    ensures ValidPath(Visible(tree, id), q)
    ensures var p := Locate(tree, id).value;
            Label(NodeAt(Visible(tree, id), q)) ==
              if |q| < |p| && q == p[..|q|] && NodeAt(tree, q).id != ""
              then Opened(Label(NodeAt(tree, q)))
              else Label(NodeAt(tree, q))
  {
    LocateSpec(tree, id);
    var p := Locate(tree, id).value;
    AncestorIds(tree, p, q);
    assert GetPathToNode(tree, id) == IdsAlong(tree, p);
    OpenEachLabels(tree, IdsAlong(tree, p)[..|p| - 1], q);
    if |q| < |p| && q == p[..|q|] {
      PrefixIsFolder(tree, p, |q|);
    }
  }

  /** Making the same node visible twice changes nothing the second time. */
  lemma VisibleIdempotent(tree: Forest, id: string)
    requires UniqueIds(tree)
    ensures Visible(Visible(tree, id), id) == Visible(tree, id)
  {
    if id != "" && id in Ids(tree) {
      var t1 := Visible(tree, id);
      var t2 := Visible(t1, id);
      VisibleKeepsShape(tree, id, id, [0]);
      forall q ensures ValidPath(t2, q) <==> ValidPath(t1, q) {
        VisibleKeepsShape(tree, id, id, q);
        VisibleKeepsShape(t1, id, id, q);
      }
      forall q | ValidPath(t2, q) ensures Label(NodeAt(t2, q)) == Label(NodeAt(t1, q)) {
        VisibleKeepsShape(tree, id, id, q);
        VisibleKeepsShape(t1, id, id, q);
        VisibleOpensAncestors(tree, id, q);
        VisibleOpensAncestors(t1, id, q);
      }
      LabelsDetermineForest(t2, t1);
    }
  }

  // ---------------------------------------------------------------------------
  // Drag and drop: moving
  // ---------------------------------------------------------------------------

  /** Where `splice(index, 0, n)` or the fallback `push(n)` puts a node in a sequence of length `len`. */
  function Slot(len: nat, index: int): (k: nat)
    ensures k <= len
    ensures 0 <= index <= len ==> k == index
    ensures !(0 <= index <= len) ==> k == len
  {
    if 0 <= index <= len then index else len
  }

  /** The sequence with `n` spliced in at `index` when 0 <= index <= |s|, pushed at the end otherwise. */
  function InsertAt(s: seq<Node>, index: int, n: Node): (r: seq<Node>)
    ensures |r| == |s| + 1
    ensures r[Slot(|s|, index)] == n
    ensures r[..Slot(|s|, index)] == s[..Slot(|s|, index)]
    ensures r[Slot(|s|, index) + 1..] == s[Slot(|s|, index)..]
  {
    if 0 <= index <= |s| then s[..index] + [n] + s[index..] else s + [n]
  }

  /** Inserting a node adds exactly the ids of its subtree. */
  lemma InsertAtIds(s: seq<Node>, index: int, n: Node)
    ensures multiset(Ids(InsertAt(s, index, n))) == multiset(Ids(s)) + multiset(SubtreeIds(n))
  {
    var k := Slot(|s|, index);
    var a, b := s[..k], s[k..];
    InsertAtSplit(s, index, n);
    IdsAround(a, n, b);
    assert s == a + b;
    IdsConcat(a, b);
    MultisetMiddle(Ids(a), SubtreeIds(n), Ids(b));
  }

  /** The splice, written with the slot. */
  lemma InsertAtSplit(s: seq<Node>, index: int, n: Node)
    ensures InsertAt(s, index, n) == s[..Slot(|s|, index)] + [n] + s[Slot(|s|, index)..]
  {
    if !(0 <= index <= |s|) {
      assert s[..|s|] == s && s[|s|..] == [];
    }
  }

  /** A block in the middle of a sequence adds its multiset to the rest. */
  lemma MultisetMiddle<T>(a: seq<T>, m: seq<T>, b: seq<T>)
    ensures multiset(a + m + b) == multiset(a + b) + multiset(m)
  {
    assert multiset(a + m + b) == multiset(a) + multiset(m) + multiset(b);
    assert multiset(a + b) == multiset(a) + multiset(b);
  }

  /** The ids of a sequence with one node spliced in. */
  lemma IdsAround(a: seq<Node>, n: Node, b: seq<Node>)
    ensures Ids(a + [n] + b) == Ids(a) + SubtreeIds(n) + Ids(b)
  {
    IdsConcat(a + [n], b);
    IdsConcat(a, [n]);
    IdsCons([n]);
    assert Ids([n]) == SubtreeIds(n);
  }

  /** The target folder after a move into it: the node inserted among its children, the folder opened. */
  function InsertInto(folder: Node, index: int, n: Node): Node
    requires folder.Folder?
  {
    folder.(children := InsertAt(folder.children, index, n), isOpen := true)
  }

  /** The target folder gains exactly the ids of the inserted subtree. */
  lemma InsertIntoIds(folder: Node, index: int, n: Node)
    requires folder.Folder?
    ensures multiset(SubtreeIds(InsertInto(folder, index, n))) == multiset(SubtreeIds(folder)) + multiset(SubtreeIds(n))
  {
    InsertAtIds(folder.children, index, n);
  }

  /**
   * The second half of moveNode, on the tree the node was already removed from:
   * a null parent id inserts at the root; a parent id that finds no folder
   * falls back to pushing at the root; a folder receives the node among its
   * children and is opened.
   */
  function Place(t: Forest, n: Node, newParentId: Option<string>, index: int): Forest
  {
    if newParentId.None? then InsertAt(t, index, n)
    else match TargetFolder(t, newParentId)
      case None => t + [n]
      case Some(p) => ReplaceAt(t, p, InsertInto(NodeAt(t, p), index, n))
  }

  /** Placing a node adds exactly the ids of its subtree. */
  lemma PlaceIds(t: Forest, n: Node, newParentId: Option<string>, index: int)
    ensures multiset(Ids(Place(t, n, newParentId, index))) == multiset(Ids(t)) + multiset(SubtreeIds(n))
  {
    var r := Place(t, n, newParentId, index);
    if newParentId.None? {
      assert r == InsertAt(t, index, n);
      InsertAtIds(t, index, n);
    } else if TargetFolder(t, newParentId).None? {
      assert r == t + [n];
      assert Ids(r) == Ids(t) + SubtreeIds(n) by {
        IdsConcat(t, [n]);
        IdsCons([n]);
      }
    } else {
      var p := TargetFolder(t, newParentId).value;
      var folder := NodeAt(t, p);
      assert r == ReplaceAt(t, p, InsertInto(folder, index, n));
      InsertIntoIds(folder, index, n);
      ReplaceGrowIds(t, p, InsertInto(folder, index, n), multiset(SubtreeIds(n)));
    }
  }

  /**
   * A node placed into a folder sits in that folder, at the path the folder
   * had. Every path that does not lead below the folder is valid before
   * exactly when it is valid after, and keeps its node's fields, the folder
   * being opened.
   */
  lemma PlaceIntoFolder(t: Forest, n: Node, newParentId: Option<string>, index: int, q: Path)
    ensures TargetFolder(t, newParentId).Some? ==>
              var p := TargetFolder(t, newParentId).value;
              ValidPath(Place(t, n, newParentId, index), p) &&
              NodeAt(Place(t, n, newParentId, index), p) == InsertInto(NodeAt(t, p), index, n)
    ensures TargetFolder(t, newParentId).Some? && !Below(TargetFolder(t, newParentId).value, q) ==>
              var r, p := Place(t, n, newParentId, index), TargetFolder(t, newParentId).value;
              (ValidPath(r, q) <==> ValidPath(t, q)) &&
              (ValidPath(t, q) ==> Label(NodeAt(r, q)) == if q == p then Opened(Label(NodeAt(t, p))) else Label(NodeAt(t, q)))
  {
    if TargetFolder(t, newParentId).Some? {
      var p := TargetFolder(t, newParentId).value;
      ReplaceAtSpec(t, p, InsertInto(NodeAt(t, p), index, n));
      if !Below(p, q) {
        ReplaceFrame(t, p, InsertInto(NodeAt(t, p), index, n), q);
      }
    }
  }

  /**
   * moveNode as written: a falsy id returns the tree unchanged; an id that
   * finds nothing makes the destructuring of the finder's null result throw;
   * otherwise the node is removed and placed again.
   */
  function MoveNode(tree: Forest, nodeId: string, newParentId: Option<string>, index: int): (r: Outcome<Forest>)
    ensures r.Threw? <==> nodeId != "" && nodeId !in Ids(tree)
    ensures nodeId == "" ==> r == Returned(tree)
    ensures r.Returned? ==> multiset(Ids(r.value)) == multiset(Ids(tree))
  {
    if nodeId == "" then Returned(tree)
    else match FindNodeById(tree, nodeId)
      case None => Threw
      case Some(found) =>
        PlaceIds(Remove(tree, nodeId), found.node, newParentId, index);
        Returned(Place(Remove(tree, nodeId), found.node, newParentId, index))
  }

  /** The move as written throws for every non-falsy id that is not in the tree. */
  lemma MoveNodeThrowsOnMissingNode(tree: Forest, nodeId: string, newParentId: Option<string>, index: int)
    requires nodeId != "" && nodeId !in Ids(tree)
    ensures MoveNode(tree, nodeId, newParentId, index) == Threw
  {
  }

  /** A concrete instance: moving an id out of an empty tree throws instead of returning the tree. */
  lemma MoveNodeThrowsOnEmptyTree()
    ensures MoveNode([], "a", None, -1) == Threw
  {
    NotFound([], "a");
  }

  /**
   * moveNode as intended by its guard "node to move not found, return
   * original tree": every id that finds nothing returns the tree. Wherever
   * the move as written returns, it returns the same tree.
   */
  function MoveNodeGuarded(tree: Forest, nodeId: string, newParentId: Option<string>, index: int): (r: Forest)
    ensures FindNodeById(tree, nodeId).None? ==> r == tree
    ensures MoveNode(tree, nodeId, newParentId, index).Returned? ==> r == MoveNode(tree, nodeId, newParentId, index).value
  {
    match FindNodeById(tree, nodeId)
      case None => tree
      case Some(found) => Place(Remove(tree, nodeId), found.node, newParentId, index)
  }

  /** A move keeps the ids of the tree, as a multiset. */
  lemma MoveKeepsIdMultiset(tree: Forest, nodeId: string, newParentId: Option<string>, index: int)
    ensures multiset(Ids(MoveNodeGuarded(tree, nodeId, newParentId, index))) == multiset(Ids(tree))
  {
    match FindNodeById(tree, nodeId)
      case None =>
      case Some(found) => PlaceIds(Remove(tree, nodeId), found.node, newParentId, index);
  }

  /** A move to the root (null parent) puts the node at the slot among the remaining root nodes. */
  lemma MoveToRootAtSlot(tree: Forest, nodeId: string, index: int)
    requires FindNodeById(tree, nodeId).Some?
    ensures var r, rest := MoveNodeGuarded(tree, nodeId, None, index), Remove(tree, nodeId);
            var k := Slot(|rest|, index);
            |r| == |rest| + 1 && r[k] == FindNodeById(tree, nodeId).value.node &&
            r[..k] == rest[..k] && r[k + 1..] == rest[k..]
  {
  }

  /** A move whose parent id names no folder once the node is removed appends the node to the root. */
  lemma MoveFallsBackToRoot(tree: Forest, nodeId: string, newParentId: Option<string>, index: int)
    requires FindNodeById(tree, nodeId).Some? && newParentId.Some?
    requires TargetFolder(Remove(tree, nodeId), newParentId).None?
    ensures MoveNodeGuarded(tree, nodeId, newParentId, index) ==
              Remove(tree, nodeId) + [FindNodeById(tree, nodeId).value.node]
  {
  }

  /**
   * A move into a folder puts the node at the slot among its children and
   * opens it; nothing else about the folder changes. Outside the folder's
   * children, the tree is the one left by the removal: the same paths, with
   * the same fields.
   */
  lemma MoveIntoFolderAtSlot(tree: Forest, nodeId: string, newParentId: Option<string>, index: int, q: Path)
    requires FindNodeById(tree, nodeId).Some? && TargetFolder(Remove(tree, nodeId), newParentId).Some?
    ensures var r, rest := MoveNodeGuarded(tree, nodeId, newParentId, index), Remove(tree, nodeId);
            var p := TargetFolder(rest, newParentId).value;
            ValidPath(r, p) && NodeAt(r, p).Folder? && NodeAt(r, p).isOpen &&
            Label(NodeAt(r, p)) == Opened(Label(NodeAt(rest, p))) &&
            NodeAt(r, p).children == InsertAt(NodeAt(rest, p).children, index, FindNodeById(tree, nodeId).value.node)
    ensures var r, rest := MoveNodeGuarded(tree, nodeId, newParentId, index), Remove(tree, nodeId);
            var p := TargetFolder(rest, newParentId).value;
            !Below(p, q) ==>
              (ValidPath(r, q) <==> ValidPath(rest, q)) &&
              (ValidPath(rest, q) && q != p ==> Label(NodeAt(r, q)) == Label(NodeAt(rest, q)))
  {
    PlaceIntoFolder(Remove(tree, nodeId), FindNodeById(tree, nodeId).value.node, newParentId, index, q);
  }

  /** With unique ids, moving a node keeps the ids unique. */
  lemma MoveKeepsIdsUnique(tree: Forest, nodeId: string, newParentId: Option<string>, index: int)
    requires UniqueIds(tree)
    ensures UniqueIds(MoveNodeGuarded(tree, nodeId, newParentId, index))
  {
    var r := MoveNodeGuarded(tree, nodeId, newParentId, index);
    MoveKeepsIdMultiset(tree, nodeId, newParentId, index);
    if FindNodeById(tree, nodeId).Some? {
      forall x ensures multiset(Ids(r))[x] <= 1 {
        assert multiset(Ids(r))[x] == multiset(Ids(tree))[x];
      }
    }
  }

  /**
   * With unique ids, a move into the node itself or into one of its
   * descendants finds no target once the node is removed: the node lands at
   * the end of the root sequence (the source's console warning case).
   */
  lemma MoveIntoOwnSubtreeFallsBack(tree: Forest, nodeId: string, targetId: string, index: int)
    requires UniqueIds(tree) && FindNodeById(tree, nodeId).Some?
    requires targetId in SubtreeIds(FindNodeById(tree, nodeId).value.node)
    ensures MoveNodeGuarded(tree, nodeId, Some(targetId), index) ==
              Remove(tree, nodeId) + [FindNodeById(tree, nodeId).value.node]
  {
    RemoveForgetsSubtree(tree, nodeId);
  }

  // ---------------------------------------------------------------------------
  // Drag and drop: the drop check
  // ---------------------------------------------------------------------------

  /** One more than the pre-order position of the first node carrying `id`; 0 for a falsy or absent id. */
  function Rank(tree: Forest, id: string): nat
  {
    if id == "" then 0
    else match Locate(tree, id)
      case None => 0
      case Some(p) => Pos(tree, p) + 1
  }

  /** The parent that the finder reports is itself found earlier in pre-order, so the upward walk ends. */
  lemma ParentRankDrops(tree: Forest, cur: string)
    requires cur != "" && cur in Ids(tree) && FindNodeById(tree, cur).value.parent.Some?
    ensures var parent := FindNodeById(tree, cur).value.parent.value;
            parent.id in Ids(tree) && Rank(tree, parent.id) < Rank(tree, cur)
  {
    LocateSpec(tree, cur);
    var p := Locate(tree, cur).value;
    FoundAtPath(tree, cur, p);
    ParentAtSpec(tree, p, None);
    var pp := p[..|p| - 1];
    var pid := NodeAt(tree, pp).id;
    PosParent(tree, p);
    IdAtPathInSubtree(tree, pp);
    if pid != "" {
      LocateSpec(tree, pid);
      FirstPos(tree, Locate(tree, pid).value, pp, pid);
    }
  }

  /**
   * The ancestor walk of canDrop: from `cur`, step to the parent the finder
   * reports until there is none or its id is falsy; true when a parent
   * carrying `dragged` is met on the way.
   */
  function WalkMeets(tree: Forest, cur: string, dragged: string): bool
    requires cur == "" || cur in Ids(tree)
    decreases Rank(tree, cur)
  {
    if cur == "" then false
    else
      var parent := FindNodeById(tree, cur).value.parent;
      if parent.None? then false
      else if parent.value.id == dragged then true
      else
        ParentRankDrops(tree, cur);
        WalkMeets(tree, parent.value.id, dragged)
  }

  /**
   * canDrop as written, as a value: a falsy dragged id is refused; a dragged or
   * target id that finds nothing makes the destructuring of the finder's null
   * result throw; the root accepts every node; a file, the node itself, or a
   * folder below the dragged folder is refused.
   */
  function DropVerdict(tree: Forest, draggedId: string, targetId: Option<string>): (r: Outcome<bool>)
    ensures r.Threw? <==>
              (draggedId != "" &&
               (draggedId !in Ids(tree) || (targetId.Some? && (targetId.value == "" || targetId.value !in Ids(tree)))))
    ensures r == Returned(true) ==> draggedId != "" && draggedId in Ids(tree)
    ensures r == Returned(true) && targetId.Some? ==>
              targetId.value != draggedId && FindNodeById(tree, targetId.value).value.node.Folder?
  {
    if draggedId == "" then Returned(false)
    else match FindNodeById(tree, draggedId)
      case None => Threw
      case Some(dragged) =>
        if targetId.None? then Returned(true)
        else match FindNodeById(tree, targetId.value)
          case None => Threw
          case Some(target) =>
            if !target.node.Folder? then Returned(false)
            else if draggedId == targetId.value then Returned(false)
            else if dragged.node.Folder? &&
                    (var inner := GetPathToNode(dragged.node.children, targetId.value);
                     |inner| > 0 && targetId.value in inner) &&
                    WalkMeets(tree, targetId.value, draggedId) then Returned(false)
            else if dragged.node.Folder? && draggedId in GetPathToNode(tree, targetId.value) then Returned(false)
            else Returned(true)
  }

  /** canDrop: the checks in order, with the upward walk as a loop. */
  method CanDrop(tree: Forest, draggedNodeId: string, targetFolderId: Option<string>) returns (r: Outcome<bool>)
    ensures r == DropVerdict(tree, draggedNodeId, targetFolderId)
  {
    if draggedNodeId == "" {
      return Returned(false);
    }
    var dragged := FindNodeById(tree, draggedNodeId);
    if dragged.None? {
      return Threw;
    }
    if targetFolderId.None? {
      return Returned(true);
    }
    var targetId := targetFolderId.value;
    var target := FindNodeById(tree, targetId);
    if target.None? {
      return Threw;
    }
    if !target.value.node.Folder? {
      return Returned(false);
    }
    if draggedNodeId == targetId {
      return Returned(false);
    }
    var draggedNode := dragged.value.node;
    if draggedNode.Folder? {
      var inner := GetPathToNode(draggedNode.children, targetId);
      if |inner| > 0 && targetId in inner {
        var cur := targetId;
        while cur != ""
          invariant cur == "" || cur in Ids(tree)
          invariant WalkMeets(tree, cur, draggedNodeId) == WalkMeets(tree, targetId, draggedNodeId)
          decreases Rank(tree, cur)
        {
          var parent := FindNodeById(tree, cur).value.parent;
          if parent.None? {
            break;
          }
          if parent.value.id == draggedNodeId {
            return Returned(false);
          }
          ParentRankDrops(tree, cur);
          cur := parent.value.id;
        }
      }
      if draggedNodeId in GetPathToNode(tree, targetId) {
        return Returned(false);
      }
    }
    return Returned(true);
  }

  /** An existing dragged node may always be dropped at the root. */
  lemma DropAtRootAllowed(tree: Forest, draggedId: string)
    requires draggedId != "" && draggedId in Ids(tree)
    ensures DropVerdict(tree, draggedId, None) == Returned(true)
  {
  }

  /** The check as written throws when the dragged id, or a non-null target id, finds nothing. */
  lemma DropVerdictThrowsOnMissingIds(tree: Forest, draggedId: string, targetId: Option<string>)
    requires draggedId != ""
    requires draggedId !in Ids(tree) ||
             (targetId.Some? && (targetId.value == "" || targetId.value !in Ids(tree)))
    ensures DropVerdict(tree, draggedId, targetId) == Threw
  {
  }

  /** A concrete instance: dragging an existing file onto an absent folder throws instead of refusing. */
  lemma DropVerdictThrowsOnAbsentTarget()
    ensures DropVerdict([File("a", "a.txt", "")], "a", Some("b")) == Threw
  {
    var tree := [File("a", "a.txt", "")];
    assert Ids(tree) == ["a"];
    FoundAtPath(tree, "a", [0]);
    NotFound(tree, "b");
  }

  /**
   * canDrop as intended by its guards "dragged node doesn't exist" and
   * "target is not a valid folder": refusal instead of a throw. Wherever the
   * check as written returns, it returns the same answer.
   */
  function CanDropGuarded(tree: Forest, draggedId: string, targetId: Option<string>): (r: bool)
    ensures DropVerdict(tree, draggedId, targetId).Returned? ==> r == DropVerdict(tree, draggedId, targetId).value
    ensures r ==> FindNodeById(tree, draggedId).Some?
    ensures r && targetId.Some? ==>
              FindNodeById(tree, targetId.value).Some? && FindNodeById(tree, targetId.value).value.node.Folder? &&
              targetId.value != draggedId
  {
    match DropVerdict(tree, draggedId, targetId)
      case Threw => false
      case Returned(b) => b
  }

  /**
   * With unique ids, a walk that meets the dragged id has climbed past it:
   * the dragged node sits strictly above the node the walk started from.
   */
  lemma {:induction false} WalkMeetsAncestor(tree: Forest, cur: string, dragged: string)
    requires UniqueIds(tree) && cur != "" && cur in Ids(tree) && dragged in Ids(tree)
    requires WalkMeets(tree, cur, dragged)
    ensures var p, q := Locate(tree, cur).value, Locate(tree, dragged).value;
            |q| < |p| && q == p[..|q|]
    decreases Rank(tree, cur)
  {
    LocateSpec(tree, cur);
    LocateSpec(tree, dragged);
    var p := Locate(tree, cur).value;
    FoundAtPath(tree, cur, p);
    ParentAtSpec(tree, p, None);
    var pp := p[..|p| - 1];
    var parent := NodeAt(tree, pp);
    LocateUnique(tree, pp);
    if parent.id != dragged {
      ParentRankDrops(tree, cur);
      WalkMeetsAncestor(tree, parent.id, dragged);
      var q := Locate(tree, dragged).value;
      assert pp[..|q|] == p[..|q|];
    }
  }

  /**
   * With unique ids, the dragged id lies on the path to the target exactly
   * when the target lies inside the dragged folder.
   */
  lemma OnPathIffInside(tree: Forest, draggedId: string, targetId: string)
    requires UniqueIds(tree) && draggedId in Ids(tree) && targetId != "" && targetId in Ids(tree)
    requires draggedId != targetId
    ensures var d := NodeAt(tree, Locate(tree, draggedId).value);
            draggedId in GetPathToNode(tree, targetId) <==> d.Folder? && targetId in Ids(d.children)
    ensures var p, q := Locate(tree, targetId).value, Locate(tree, draggedId).value;
            draggedId in GetPathToNode(tree, targetId) <==> |q| < |p| && q == p[..|q|]
  {
    var p := Locate(tree, targetId).value;
    var q := Locate(tree, draggedId).value;
    var d := NodeAt(tree, q);
    assert draggedId in GetPathToNode(tree, targetId) <==> |q| < |p| && q == p[..|q|] by {
      var path := IdsAlong(tree, p);
      assert GetPathToNode(tree, targetId) == path;
      IdsAlongChain(tree, p);
      AncestorIds(tree, p, q);
      InAllButLast(path, draggedId, targetId);
    }
    assert |q| < |p| && q == p[..|q|] <==> d.Folder? && targetId in Ids(d.children) by {
      if |q| < |p| && q == p[..|q|] {
        AncestorHoldsInside(tree, q, p);
      }
      if d.Folder? && targetId in Ids(d.children) {
        InsideIsBelow(tree, q, targetId);
      }
    }
  }

  /** A value other than the last one occurs in a sequence exactly when it occurs before the last position. */
  lemma InAllButLast<T>(s: seq<T>, x: T, last: T)
    requires |s| > 0 && s[|s| - 1] == last && x != last
    ensures x in s <==> x in s[..|s| - 1]
  {
    assert s == s[..|s| - 1] + [last];
  }

  /** A node on the path to another holds that other node's id among its descendants. */
  lemma AncestorHoldsInside(tree: Forest, q: Path, p: Path)
    requires ValidPath(tree, p) && 0 < |q| < |p| && q == p[..|q|]
    ensures ValidPath(tree, q) && NodeAt(tree, q).Folder? && NodeAt(tree, p).id in Ids(NodeAt(tree, q).children)
  {
    PathSplit(tree, q, p);
    IdAtPathInSubtree(NodeAt(tree, q).children, p[|q|..]);
  }

  /** With unique ids, an id held below a folder is located below that folder. */
  lemma InsideIsBelow(tree: Forest, q: Path, id: string)
    requires UniqueIds(tree) && ValidPath(tree, q) && NodeAt(tree, q).Folder? && id in Ids(NodeAt(tree, q).children)
    ensures Locate(tree, id).Some? && |q| < |Locate(tree, id).value| && q == Locate(tree, id).value[..|q|]
  {
    var d := NodeAt(tree, q);
    LocateSpec(d.children, id);
    var r := Locate(d.children, id).value;
    PathAppend(tree, q, r);
    LocateUnique(tree, q + r);
    assert (q + r)[..|q|] == q;
  }

  /**
   * With unique ids and both ids present, the check as written answers: the
   * target must be a folder, other than the dragged node, and not inside it.
   */
  lemma DropVerdictCharacterised(tree: Forest, draggedId: string, targetId: string)
    requires UniqueIds(tree) && draggedId != "" && draggedId in Ids(tree)
    requires targetId != "" && targetId in Ids(tree)
    ensures var d := FindNodeById(tree, draggedId).value.node;
            var t := FindNodeById(tree, targetId).value.node;
            DropVerdict(tree, draggedId, Some(targetId)) ==
              Returned(t.Folder? && targetId != draggedId && !(d.Folder? && targetId in Ids(d.children)))
  {
    LocateSpec(tree, draggedId);
    FoundAtPath(tree, draggedId, Locate(tree, draggedId).value);
    if draggedId != targetId {
      OnPathIffInside(tree, draggedId, targetId);
      if WalkMeets(tree, targetId, draggedId) {
        WalkMeetsAncestor(tree, targetId, draggedId);
      }
    }
  }

  /**
   * With unique ids, a drop the check allows is carried out by the move: the
   * target folder is still found once the node is removed, so the node goes
   * into it and not to the root fallback.
   */
  lemma AllowedDropIsHonoured(tree: Forest, draggedId: string, targetId: string)
    requires UniqueIds(tree) && CanDropGuarded(tree, draggedId, Some(targetId))
    ensures TargetFolder(Remove(tree, draggedId), Some(targetId)).Some?
    ensures var rest := Remove(tree, draggedId);
            NodeAt(rest, TargetFolder(rest, Some(targetId)).value).id == targetId
  {
    LocateSpec(tree, draggedId);
    LocateSpec(tree, targetId);
    DropVerdictCharacterised(tree, draggedId, targetId);
    var pd := Locate(tree, draggedId).value;
    var pt := Locate(tree, targetId).value;
    FoundAtPath(tree, draggedId, pd);
    FoundAtPath(tree, targetId, pt);
    var d := NodeAt(tree, pd);
    var rest := Remove(tree, draggedId);
    assert targetId !in SubtreeIds(d);
    assert multiset(Ids(rest))[targetId] + multiset(SubtreeIds(d))[targetId] == multiset(Ids(tree))[targetId];
    LocateSpec(rest, targetId);
    var q' := Locate(rest, targetId).value;
    var q := RemoveOrigin(tree, pd, q');
    assert NodeAt(tree, q).id == targetId;
    LocateUnique(tree, q);
  }

  // ---------------------------------------------------------------------------
  // File extensions
  // ---------------------------------------------------------------------------

  /** The text after the last '.', or `None` when there is no '.'. */
  function AfterLastDot(s: string): (r: Option<string>)
    ensures r.None? <==> '.' !in s
    ensures r.Some? ==>
              '.' !in r.value && |r.value| < |s| &&
              s[|s| - |r.value| - 1] == '.' && s[|s| - |r.value|..] == r.value
  {
    if s == [] then None
    else if s[|s| - 1] == '.' then Some([])
    else match AfterLastDot(s[..|s| - 1])
      case None => None
      case Some(t) => Some(t + [s[|s| - 1]])
  }

  /** ASCII lower case of one character. */
  function LowerChar(c: char): (r: char)
    ensures 'A' <= c <= 'Z' ==> r as int == c as int + 32
    ensures !('A' <= c <= 'Z') ==> r == c
  {
    if 'A' <= c <= 'Z' then (c as int + 32) as char else c
  }

  function ToLower(s: string): (r: string)
    ensures |r| == |s| && forall i :: 0 <= i < |s| ==> r[i] == LowerChar(s[i])
  {
    seq(|s|, i requires 0 <= i < |s| => LowerChar(s[i]))
  }

  /** getFileExtension: the lower-cased text after the last '.', or "" when the name has no '.'. */
  function GetFileExtension(filename: string): (r: string)
    ensures '.' !in filename ==> r == ""
    ensures '.' in filename ==> exists base, ext :: filename == base + "." + ext && '.' !in ext && r == ToLower(ext)
  {
    match AfterLastDot(filename)
      case None => ""
      case Some(ext) =>
        var base := filename[..|filename| - |ext| - 1];
        assert filename == base + "." + ext;
        ToLower(ext)
  }

  /** The text after the last dot of `base + "." + ext` is `ext` when `ext` holds no dot. */
  lemma {:induction false} DotThenExtension(base: string, ext: string)
    requires '.' !in ext
    ensures AfterLastDot(base + "." + ext) == Some(ext)
    decreases |ext|
  {
    var s := base + "." + ext;
    if ext == [] {
      assert s[|s| - 1] == '.';
    } else {
      var init := ext[..|ext| - 1];
      assert s[..|s| - 1] == base + "." + init;
      assert s[|s| - 1] == ext[|ext| - 1];
      DotThenExtension(base, init);
      assert init + [ext[|ext| - 1]] == ext;
    }
  }

  /** A name made of a base, a dot and a dot-free extension yields the lower-cased extension; a name without a dot yields "". */
  lemma FileExtensionOfDottedName(base: string, ext: string)
    requires '.' !in ext
    ensures GetFileExtension(base + "." + ext) == ToLower(ext)
    ensures '.' !in base ==> GetFileExtension(base) == ""
  {
    DotThenExtension(base, ext);
  }
}
