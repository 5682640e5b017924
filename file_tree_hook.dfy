/**
 * The state hook of src/hooks/useFileTree.js as a class: the tree, the
 * selection, the node of the open context menu and the undo/redo history are
 * fields, and every action the hook returns is a method that updates them.
 * Each action that edits the tree goes through `SetTreeDataWithHistory`, so
 * the current tree is always the current entry of the history.
 */
module FileTreeHook {
  import opened Wrappers
  import opened TreeModel
  import opened TreeUtils
  import History

  /** One entry of the data given to importTreeData, as far as its check can tell. */
  datatype ImportItem =
    | Falsy                  // null, undefined, 0, "" or false
    | WithoutStringId        // an object whose `id` is not a string
    | Item(node: Node)       // a node

  /** The data given to importTreeData: JSON text that does not parse, a value that is not an array, or an array. */
  datatype Imported = Unparseable | NotAnArray | Items(items: seq<ImportItem>)

  /** importTreeData's check: an array whose every entry is a truthy object with a string id. */
  function Accepted(data: Imported): (r: Option<Forest>)
    ensures r.Some? <==> data.Items? && forall i :: 0 <= i < |data.items| ==> data.items[i].Item?
    ensures r.Some? ==> |r.value| == |data.items| && forall i :: 0 <= i < |r.value| ==> data.items[i] == Item(r.value[i])
  {
    if data.Items? && forall i :: 0 <= i < |data.items| ==> data.items[i].Item? then
      Some(seq(|data.items|, i requires 0 <= i < |data.items| && data.items[i].Item? => data.items[i].node))
    else None
  }

  /** The name createFile gives a new file: the name itself when it has a dot, else the name with ".txt". */
  function NewFileName(name: string): (r: string)
    ensures '.' in r
    ensures '.' in name ==> r == name
    ensures '.' !in name ==> r == name + ".txt" && GetFileExtension(r) == "txt"
  {
    if '.' in name then name
    else
      FileExtensionOfDottedName(name, "txt");
      name + ".txt"
  }

  /** The file createFile builds: its content is a comment line naming it. */
  function NewFile(id: string, name: string): Node
  {
    File(id, NewFileName(name), "// " + NewFileName(name) + "\n")
  }

  /** The folder createFolder builds: open and empty. */
  function NewFolder(id: string, name: string): Node
  {
    Folder(id, name, true, [])
  }

  /**
   * Where createFile and createFolder put the new node: a given parent id is
   * used as it is; with a null parent id, the selected node is used when it
   * is a folder, and otherwise the null parent id stands (the root).
   */
  function ResolveParent(tree: Forest, parentId: Option<string>, selected: Option<string>): (r: Option<string>)
    ensures parentId.Some? ==> r == parentId
    ensures (parentId.None? && selected.Some? && FindNodeById(tree, selected.value).Some? &&
             FindNodeById(tree, selected.value).value.node.Folder?) ==> r == selected
    ensures r.None? <==> (parentId.None? &&
                          (selected.None? || FindNodeById(tree, selected.value).None? ||
                           FindNodeById(tree, selected.value).value.node.File?))
  {
    if parentId.None? && selected.Some? && selected.value != "" then
      match FindNodeById(tree, selected.value)
        case Some(found) => if found.node.Folder? then Some(found.node.id) else parentId
        case None => parentId
    else parentId
  }

  /** The node carrying `id` is found and every folder above it with a non-falsy id is open. */
  ghost predicate Shown(tree: Forest, id: string)
  {
    FindNodeById(tree, id).Some? &&
    var path := GetPathToNode(tree, id);
    forall k :: 0 <= k < |path| - 1 && path[k] != "" ==>
      FindNodeById(tree, path[k]).Some? &&
      FindNodeById(tree, path[k]).value.node.Folder? && FindNodeById(tree, path[k]).value.node.isOpen
  }

  /** One folder above the added node, as the visibility step leaves it. */
  lemma AncestorShown(r0: Forest, id: string, k: nat)
    requires UniqueIds(r0) && id != "" && id in Ids(r0)
    requires k + 1 < |Locate(r0, id).value|
    requires ValidPath(r0, Locate(r0, id).value[..k + 1])
    requires NodeAt(r0, Locate(r0, id).value[..k + 1]).id != ""
    ensures var r, p := Visible(r0, id), Locate(r0, id).value;
            ValidPath(r, p) && |IdsAlong(r, p)| == |p| &&
            FindNodeById(r, IdsAlong(r, p)[k]).Some? &&
            FindNodeById(r, IdsAlong(r, p)[k]).value.node.Folder? &&
            FindNodeById(r, IdsAlong(r, p)[k]).value.node.isOpen
  {
    var r, p := Visible(r0, id), Locate(r0, id).value;
    var q := p[..k + 1];
    VisibleKeepsShape(r0, id, id, p);
    VisibleKeepsShape(r0, id, id, q);
    PrefixIsFolder(r0, p, k + 1);
    VisibleOpensAncestors(r0, id, q);
    IdsAlongAt(r, p, k);
    var x := IdsAlong(r, p)[k];
    assert x == NodeAt(r0, q).id;
    LocateUnique(r, q);
    FoundAtPath(r, x, q);
  }

  /**
   * With unique ids, a fresh childless node added and then made visible keeps
   * the ids unique, is found with its own fields, and every folder above it
   * (with a non-falsy id) is open.
   */
  lemma NewNodeIsShown(tree: Forest, parentId: Option<string>, n: Node)
    requires UniqueIds(tree) && n.id != "" && n.id !in Ids(tree)
    requires n.File? || n.children == []
    ensures var r := Visible(AddNode(tree, parentId, n), n.id);
            UniqueIds(r) && Shown(r, n.id) && Label(FindNodeById(r, n.id).value.node) == Label(n)
  {
    assert SubtreeIds(n) == [n.id];
    AddFreshKeepsIdsUnique(tree, parentId, n);
    var r0 := AddNode(tree, parentId, n);
    if TargetFolder(tree, parentId).None? {
      AddAtRootIsFound(tree, parentId, n);
    } else {
      AddIntoFolderIsFound(tree, parentId, n);
    }
    LocateSpec(r0, n.id);
    FoundAtPath(r0, n.id, Locate(r0, n.id).value);
    VisibleShows(r0, n.id);
  }

  /**
   * Making a present id visible in a tree with unique ids keeps the ids
   * unique, opens every folder above it and leaves the node's own fields.
   */
  lemma VisibleShows(r0: Forest, id: string)
    requires UniqueIds(r0) && id != "" && id in Ids(r0)
    ensures Locate(r0, id).Some?
    ensures var r := Visible(r0, id);
            UniqueIds(r) && Shown(r, id) &&
            Label(FindNodeById(r, id).value.node) == Label(NodeAt(r0, Locate(r0, id).value))
  {
    LocateSpec(r0, id);
    var r := Visible(r0, id);
    var p := Locate(r0, id).value;
    VisibleKeepsShape(r0, id, id, p);
    VisibleOpensAncestors(r0, id, p);
    FoundAtPath(r, id, p);
    assert GetPathToNode(r, id) == IdsAlong(r, p);
    IdsAlongAt(r, p, 0);
    forall k | 0 <= k < |p| - 1 && IdsAlong(r, p)[k] != ""
      ensures FindNodeById(r, IdsAlong(r, p)[k]).Some? &&
              FindNodeById(r, IdsAlong(r, p)[k]).value.node.Folder? &&
              FindNodeById(r, IdsAlong(r, p)[k]).value.node.isOpen
    {
      IdsAlongAt(r, p, k);
      PrefixIsFolder(r0, p, k + 1);
      VisibleOpensAncestors(r0, id, p[..k + 1]);
      AncestorShown(r0, id, k);
    }
  }

  /** With unique ids, a deleted id is gone and ids stay unique. */
  lemma DeletedIsGone(tree: Forest, id: string)
    requires UniqueIds(tree)
    ensures UniqueIds(Remove(tree, id)) && FindNodeById(Remove(tree, id), id).None?
  {
    if FindNodeById(tree, id).Some? {
      RemoveForgetsSubtree(tree, id);
    }
  }

  /** The state of one useFileTree hook. */
  class FileTree {
    var treeData: Forest
    var selectedNodeId: Option<string>
    var contextMenuNode: Option<Node>
    var history: seq<Forest>
    var historyIndex: int
    /** The tree of src/data/initialTree.js, which is not part of this model. */
    const initialTreeData: Forest

    /** The history is bounded, its index names an entry, and that entry is the current tree. */
    predicate Valid()
      reads this
    {
      History.Valid(Timeline()) && history[historyIndex] == treeData
    }

    function Timeline(): History.Timeline<Forest>
      reads this
    {
      History.Timeline(history, historyIndex)
    }

    /** canUndo. */
    function CanUndo(): bool
      reads this
    {
      History.CanUndo(Timeline())
    }

    /** canRedo. */
    function CanRedo(): bool
      reads this
    {
      History.CanRedo(Timeline())
    }

    /**
     * The hook's start: the saved tree when local storage holds one that
     * parses, the initial tree otherwise; a history holding that one tree;
     * no selection and no context menu.
     */
    constructor(saved: Option<Forest>, initial: Forest)
      ensures Valid()
      ensures treeData == (if saved.Some? then saved.value else initial)
      ensures history == [treeData] && historyIndex == 0
      ensures selectedNodeId.None? && contextMenuNode.None? && initialTreeData == initial
    {
      var start := if saved.Some? then saved.value else initial;
      treeData := start;
      selectedNodeId := None;
      contextMenuNode := None;
      history := [start];
      historyIndex := 0;
      initialTreeData := initial;
    }

    /**
     * setTreeDataWithHistory: the new tree becomes current and is recorded,
     * discarding the redo entries and, past 30 entries, the oldest one.
     */
    method SetTreeDataWithHistory(newTree: Forest)
      requires Valid()
      modifies this
      ensures Valid() && treeData == newTree
      ensures Timeline() == History.Record(old(Timeline()), newTree)
      ensures selectedNodeId == old(selectedNodeId) && contextMenuNode == old(contextMenuNode)
    {
      var newHistory := history[..historyIndex + 1] + [newTree];
      if |newHistory| > History.MaxHistoryLength {
        newHistory := newHistory[1..];
      }
      history := newHistory;
      historyIndex := |newHistory| - 1;
      treeData := newTree;
    }

    /** The history becomes the current tree alone. */
    method RestartHistory()
      requires Valid()
      modifies this
      ensures Valid() && history == [treeData] && historyIndex == 0
      ensures treeData == old(treeData) && selectedNodeId == old(selectedNodeId) && contextMenuNode == old(contextMenuNode)
    {
      history := [treeData];
      historyIndex := 0;
    }

    /** undo: back to the previous entry, clearing the selection and the context menu; nothing when there is none. */
    method Undo()
      requires Valid()
      modifies this
      ensures Valid()
      ensures Timeline() == History.Undo(old(Timeline()))
      ensures old(CanUndo()) ==> treeData == history[old(historyIndex) - 1] && selectedNodeId.None? && contextMenuNode.None?
      ensures !old(CanUndo()) ==> treeData == old(treeData) && selectedNodeId == old(selectedNodeId) &&
                                  contextMenuNode == old(contextMenuNode)
    {
      if CanUndo() {
        var newIndex := historyIndex - 1;
        historyIndex := newIndex;
        treeData := history[newIndex];
        selectedNodeId := None;
        contextMenuNode := None;
      }
    }

    /** redo: forward to the next entry, clearing the selection and the context menu; nothing when there is none. */
    method Redo()
      requires Valid()
      modifies this
      ensures Valid()
      ensures Timeline() == History.Redo(old(Timeline()))
      ensures old(CanRedo()) ==> treeData == history[old(historyIndex) + 1] && selectedNodeId.None? && contextMenuNode.None?
      ensures !old(CanRedo()) ==> treeData == old(treeData) && selectedNodeId == old(selectedNodeId) &&
                                  contextMenuNode == old(contextMenuNode)
    {
      if CanRedo() {
        var newIndex := historyIndex + 1;
        historyIndex := newIndex;
        treeData := history[newIndex];
        selectedNodeId := None;
        contextMenuNode := None;
      }
    }

    /** selectNode. */
    method SelectNode(id: Option<string>)
      modifies this
      ensures selectedNodeId == id
      ensures treeData == old(treeData) && history == old(history) && historyIndex == old(historyIndex)
      ensures contextMenuNode == old(contextMenuNode)
    {
      selectedNodeId := id;
    }

    /** toggleFolder: the toggled tree is recorded. */
    method ToggleFolder(id: string)
      requires Valid()
      modifies this
      ensures Valid() && treeData == ToggleFolderOpen(old(treeData), id)
      ensures Timeline() == History.Record(old(Timeline()), treeData)
      ensures selectedNodeId == old(selectedNodeId) && contextMenuNode == old(contextMenuNode)
    {
      SetTreeDataWithHistory(ToggleFolderOpen(treeData, id));
    }

    /** openContextMenu: remembers the node found under `nodeId`; nothing when none is found. */
    method OpenContextMenu(nodeId: string)
      modifies this
      ensures FindNodeById(old(treeData), nodeId).Some? ==>
                contextMenuNode == Some(FindNodeById(old(treeData), nodeId).value.node)
      ensures FindNodeById(old(treeData), nodeId).None? ==> contextMenuNode == old(contextMenuNode)
      ensures treeData == old(treeData) && history == old(history) && historyIndex == old(historyIndex)
      ensures selectedNodeId == old(selectedNodeId)
    {
      var found := FindNodeById(treeData, nodeId);
      if found.Some? {
        contextMenuNode := Some(found.value.node);
      }
    }

    /** closeContextMenu. */
    method CloseContextMenu()
      modifies this
      ensures contextMenuNode.None?
      ensures treeData == old(treeData) && history == old(history) && historyIndex == old(historyIndex)
      ensures selectedNodeId == old(selectedNodeId)
    {
      contextMenuNode := None;
    }

    /**
     * deleteNode: the tree without the node is recorded; the selection is
     * cleared when it was the deleted id. With unique ids, neither the id nor
     * any id below it can be found afterwards.
     */
    method DeleteNode(id: string)
      requires Valid()
      modifies this
      ensures Valid() && treeData == Remove(old(treeData), id)
      ensures Timeline() == History.Record(old(Timeline()), treeData)
      ensures selectedNodeId == if old(selectedNodeId) == Some(id) then None else old(selectedNodeId)
      ensures contextMenuNode == old(contextMenuNode)
      ensures old(UniqueIds(treeData)) ==> UniqueIds(treeData) && FindNodeById(treeData, id).None?
    {
      var newTree := RemoveNodeFromTree(treeData, id);
      ghost var wasUnique := UniqueIds(treeData);
      if wasUnique {
        DeletedIsGone(treeData, id);
      }
      SetTreeDataWithHistory(newTree);
      if selectedNodeId == Some(id) {
        SelectNode(None);
      }
    }

    /**
     * createFile and createFolder: the node is added under the resolved
     * parent, the path to it is opened, the result is recorded and the new
     * node is selected. `freshId` stands for the result of generateId.
     */
    method Create(parentId: Option<string>, newNode: Node) returns (newId: string)
      requires Valid() && newNode.id != "" && newNode.id !in Ids(treeData)
      requires newNode.File? || newNode.children == []
      modifies this
      ensures Valid() && newId == newNode.id
      ensures treeData ==
                Visible(AddNode(old(treeData), ResolveParent(old(treeData), parentId, old(selectedNodeId)), newNode), newNode.id)
      ensures Timeline() == History.Record(old(Timeline()), treeData)
      ensures selectedNodeId == Some(newNode.id) && contextMenuNode == old(contextMenuNode)
      ensures old(UniqueIds(treeData)) ==>
                UniqueIds(treeData) && Shown(treeData, newNode.id) &&
                Label(FindNodeById(treeData, newNode.id).value.node) == Label(newNode)
    {
      var actualParentId := ResolveParent(treeData, parentId, selectedNodeId);
      if UniqueIds(treeData) {
        NewNodeIsShown(treeData, actualParentId, newNode);
      }
      var newTree := AddNode(treeData, actualParentId, newNode);
      newTree := EnsureNodeIsVisible(newTree, newNode.id);
      SetTreeDataWithHistory(newTree);
      SelectNode(Some(newNode.id));
      newId := newNode.id;
    }

    /** createFile: a file named after `name` (".txt" added when it has no dot), with a one-line comment as content. */
    method CreateFile(parentId: Option<string>, name: string, freshId: string) returns (newId: string)
      requires Valid() && freshId != "" && freshId !in Ids(treeData)
      modifies this
      ensures Valid() && newId == freshId
      ensures treeData ==
                Visible(AddNode(old(treeData), ResolveParent(old(treeData), parentId, old(selectedNodeId)),
                                NewFile(freshId, name)), freshId)
      ensures Timeline() == History.Record(old(Timeline()), treeData)
      ensures selectedNodeId == Some(freshId) && contextMenuNode == old(contextMenuNode)
      ensures old(UniqueIds(treeData)) ==>
                UniqueIds(treeData) && Shown(treeData, freshId) &&
                FindNodeById(treeData, freshId).value.node == NewFile(freshId, name)
    {
      newId := Create(parentId, NewFile(freshId, name));
    }

    /** createFolder: an open, empty folder. */
    method CreateFolder(parentId: Option<string>, name: string, freshId: string) returns (newId: string)
      requires Valid() && freshId != "" && freshId !in Ids(treeData)
      modifies this
      ensures Valid() && newId == freshId
      ensures treeData ==
                Visible(AddNode(old(treeData), ResolveParent(old(treeData), parentId, old(selectedNodeId)),
                                NewFolder(freshId, name)), freshId)
      ensures Timeline() == History.Record(old(Timeline()), treeData)
      ensures selectedNodeId == Some(freshId) && contextMenuNode == old(contextMenuNode)
      ensures old(UniqueIds(treeData)) ==>
                UniqueIds(treeData) && Shown(treeData, freshId) &&
                Label(FindNodeById(treeData, freshId).value.node) == NewFolder(freshId, name)
    {
      newId := Create(parentId, NewFolder(freshId, name));
    }

    /** renameItem: the renamed tree is recorded. */
    method RenameItem(id: string, newName: string)
      requires Valid()
      modifies this
      ensures Valid() && treeData == RenameNode(old(treeData), id, newName)
      ensures Timeline() == History.Record(old(Timeline()), treeData)
      ensures selectedNodeId == old(selectedNodeId) && contextMenuNode == old(contextMenuNode)
    {
      SetTreeDataWithHistory(RenameNode(treeData, id, newName));
    }

    /** moveItem: the moved tree is recorded; ids stay unique. */
    method MoveItem(nodeId: string, targetParentId: Option<string>, index: int)
      requires Valid()
      modifies this
      ensures Valid() && treeData == MoveNodeGuarded(old(treeData), nodeId, targetParentId, index)
      ensures Timeline() == History.Record(old(Timeline()), treeData)
      ensures selectedNodeId == old(selectedNodeId) && contextMenuNode == old(contextMenuNode)
      ensures old(UniqueIds(treeData)) ==> UniqueIds(treeData)
    {
      if UniqueIds(treeData) {
        MoveKeepsIdsUnique(treeData, nodeId, targetParentId, index);
      }
      SetTreeDataWithHistory(MoveNodeGuarded(treeData, nodeId, targetParentId, index));
    }

    /**
     * importTreeData: accepted data becomes the tree and the whole history,
     * and the selection and the context menu are cleared; rejected data
     * changes nothing.
     */
    method ImportTreeData(data: Imported) returns (ok: bool)
      requires Valid()
      modifies this
      ensures Valid()
      ensures ok <==> Accepted(data).Some?
      ensures ok ==> treeData == Accepted(data).value && history == [treeData] && historyIndex == 0 &&
                     selectedNodeId.None? && contextMenuNode.None?
      ensures !ok ==> treeData == old(treeData) && history == old(history) && historyIndex == old(historyIndex) &&
                      selectedNodeId == old(selectedNodeId) && contextMenuNode == old(contextMenuNode)
    {
      var parsed := Accepted(data);
      if parsed.None? {
        return false;
      }
      SetTreeDataWithHistory(parsed.value);
      SelectNode(None);
      CloseContextMenu();
      RestartHistory();
      return true;
    }

    /** resetTreeData: the initial tree becomes the tree and the whole history; selection and context menu are cleared. */
    method ResetTreeData()
      requires Valid()
      modifies this
      ensures Valid()
      ensures treeData == initialTreeData && history == [initialTreeData] && historyIndex == 0
      ensures selectedNodeId.None? && contextMenuNode.None?
    {
      SetTreeDataWithHistory(initialTreeData);
      SelectNode(None);
      CloseContextMenu();
      RestartHistory();
    }
  }
}
