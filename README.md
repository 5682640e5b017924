# File explorer tree: a verified model

This project models the core of a browser file explorer, a tree of files and
folders that the user edits with undo and redo:

- `src/utils/treeUtils.js`: the pure tree operations. These cover finding a
  node with its parent and index, the path of ids to a node, removing, adding,
  renaming and toggling nodes, opening the folders above a node, moving a node
  by drag and drop, the drop check, and file extensions.
- `src/hooks/useFileTree.js`: the state hook. It holds the tree, the
  selection, the node of the context menu, and an undo/redo history of at
  most 30 trees.

The files:

- `wrappers.dfy`: `Option`, and `Outcome`. `Outcome` records whether a call
  returns a value or throws.
- `tree_model.dfy`: the data model.
  - A node is a `File(id, name, content)` or a `Folder(id, name, isOpen, children)`.
    A tree is a sequence of root nodes.
  - The reference that `findNodeById` hands back is modelled as an index path.
    An edit through that reference replaces the node at that path (`ReplaceAt`).
  - Ids are listed in pre-order (`Ids`).
  - `Locate` is the pre-order search that every finder of the source performs.
- `tree_utils.dfy`: each operation of `treeUtils.js`.
  - Most operations are functions.
  - The two loops that work step by step on a cloned tree are methods proved
    against those functions: the splice loop of `removeNodeFromTree`, and the
    ancestor loop of `ensureNodeIsVisible`.
  - `canDrop`'s upward walk is also a method with a loop.
- `history.dfy`: the history as values. A `Timeline` is the list of recorded
  trees plus the index of the current one. The file defines what recording,
  undo and redo do to a `Timeline`.
- `file_tree_hook.dfy`: the hook as a class `FileTree`.
  - Every action of the hook is a method.
  - Every action that edits the tree records the result through
    `SetTreeDataWithHistory`.
  - The class invariant `Valid()` says two things. The history holds between
    1 and 30 trees. The current tree is the history's current entry.

Conventions:

- Every falsy id (`null`, `undefined`, `""`) is written as `""`.
- A parent or target id that the source compares with `=== null` is an
  `Option<string>`, and `None` stands for `null`.
- `cloneTree` is the identity on values.
- Most properties assume that ids are unique in the tree (`UniqueIds`). This is
  the only situation in which the source's id lookups name one node.

## Model

| member | source | states |
|---|---|---|
| TreeModel.Locate | src/utils/treeUtils.js:28-50 | The pre-order search finds a path exactly when the id occurs in the tree. The path leads to a node with that id, and no earlier node in pre-order carries it. |
| TreeModel.LocateUnique | src/utils/treeUtils.js:28-50 | With unique ids, the search for the id of any node returns that node's path. |
| TreeUtils.FindNodeById | src/utils/treeUtils.js:28-50 | A node is found exactly when the id is truthy and occurs in the tree. The found node carries the id and is the first match in pre-order. The parent is null exactly when that match is a root node; otherwise it is the folder one step up the match's path, and the node is one of its children. |
| TreeUtils.FindNodeAndIndexById | src/utils/treeUtils.js:53-77 | The index is -1, with null node and parent, exactly when findNodeById finds nothing. Otherwise the result has the same node and parent as findNodeById, and the index is the node's position among its siblings. |
| TreeUtils.GetPathToNode | src/utils/treeUtils.js:81-95 | The path is empty exactly for a falsy or absent id. Otherwise it ends with the id, and each entry is the parent of the next, starting from a root. |
| TreeUtils.PathEndsAtFoundNode | src/utils/treeUtils.js:81-95 | The path has one entry exactly when the found node is a root. Otherwise its second-to-last entry is the found parent's id. |
| TreeUtils.Remove | src/utils/treeUtils.js:101-118 | A tree without the id is returned unchanged. Otherwise exactly the ids of the removed subtree leave the tree. `RemoveKeepsRest` states that nothing else changes. |
| TreeUtils.RemoveKeepsRest | src/utils/treeUtils.js:104-115 | The removed ids were one block of the pre-order list, at the removed node's position. Every node outside the removed subtree is still there, with its own fields and the same ids from its root down to it, and so under the same parent. Only the later siblings of the removed node move up one place. Every node left is one of these. |
| TreeUtils.RemoveForgetsSubtree | src/utils/treeUtils.js:101-118 | With unique ids, after removal neither the id nor any id below it can be found, and ids stay unique. |
| TreeUtils.RemoveRecursive | src/utils/treeUtils.js:104-115 | The loop reports a removal exactly when the id occurs, and then it cuts out the first match in pre-order. |
| TreeUtils.RemoveNodeFromTree | src/utils/treeUtils.js:101-118 | The method computes the removal described by `Remove`. |
| TreeUtils.TargetFolder | src/utils/treeUtils.js:125-135 | There is no target exactly when the parent id is null, absent, or names a file, and then the node goes to the root. Otherwise the target is the path of the folder that findNodeById returns, the first match in pre-order. |
| TreeUtils.AddNode | src/utils/treeUtils.js:121-143 | A node with a falsy id leaves the tree unchanged. Otherwise the node's subtree ids are added. With no target folder the node is appended at the root. With a target, the folder gains the node as its last child and is opened, and nothing else about it changes. `AddNodeKeepsRest` states that the rest of the tree stays the same. |
| TreeUtils.AddNodeKeepsRest | src/utils/treeUtils.js:137-142 | When adding into a folder, every path of the old tree stays valid. Each keeps its node's own fields, except that the folder is opened. The only new paths lead into the appended node, which is the folder's new last child. |
| TreeUtils.AddFreshKeepsIdsUnique | src/utils/treeUtils.js:121-143 | Adding a node whose ids are fresh keeps ids unique. |
| TreeUtils.AddAtRootIsFound | src/utils/treeUtils.js:125-134 | A fresh node added at the root is the last root node and is found without a parent. |
| TreeUtils.AddIntoFolderIsFound | src/utils/treeUtils.js:137-142 | A fresh node added to a folder is found with that folder, extended by the node, as its parent. |
| TreeUtils.RenameNode | src/utils/treeUtils.js:146-154 | An absent id leaves the tree unchanged. Ids are kept. The found node gets the new name and keeps its other fields. |
| TreeUtils.RenameChangesOnlyName | src/utils/treeUtils.js:146-154 | Paths stay valid. Only the first match's name changes; every other node's own fields stay the same. |
| TreeUtils.ToggleFolderOpen | src/utils/treeUtils.js:157-165 | An absent id or a file leaves the tree unchanged. Ids are kept. A folder's open flag is flipped. |
| TreeUtils.ToggleTwice | src/utils/treeUtils.js:157-165 | Toggling twice gives back the original tree. |
| TreeUtils.ToggleChangesOnlyOpenFlag | src/utils/treeUtils.js:157-165 | Only the first matching folder's open flag changes; every other node's own fields stay the same. |
| TreeUtils.OpenIfClosedLabels | src/utils/treeUtils.js:178-185 | One loop step opens the folder that the current tree locates under the ancestor id, and changes nothing else. |
| TreeUtils.OpenEachLabels | src/utils/treeUtils.js:175-186 | With unique ids, after the loop a node is opened exactly when its id is truthy and on the list, and nothing else changes. |
| TreeUtils.Visible | src/utils/treeUtils.js:168-189 | A falsy or absent id leaves the tree unchanged. |
| TreeUtils.EnsureNodeIsVisible | src/utils/treeUtils.js:168-189 | The loop over the ancestor ids computes `Visible`. |
| TreeUtils.VisibleKeepsShape | src/utils/treeUtils.js:168-189 | Ids, id lookups and valid paths are the same before and after. |
| TreeUtils.AncestorIds | src/utils/treeUtils.js:171-175 | With unique ids, a node's id is among the ids before the target in the path exactly when the node is a proper ancestor of the target. |
| TreeUtils.VisibleOpensAncestors | src/utils/treeUtils.js:168-189 | With unique ids, exactly the proper ancestors of the node with truthy ids are opened; every other node is unchanged. |
| TreeUtils.VisibleIdempotent | src/utils/treeUtils.js:168-189 | With unique ids, making a node visible a second time changes nothing. |
| TreeUtils.Slot | src/utils/treeUtils.js:208-212 | An index from 0 to the length inclusive is used as it is. Any other index, -1 included, means the end. |
| TreeUtils.InsertAt | src/utils/treeUtils.js:208-212 | The node sits at the slot, with the old entries before and after it in order. |
| TreeUtils.PlaceIds | src/utils/treeUtils.js:206-245 | Putting the moved node back adds exactly its subtree ids. |
| TreeUtils.PlaceIntoFolder | src/utils/treeUtils.js:233-243 | With a valid target folder, the folder gains the node at the slot and is opened. Every path that does not lead below the folder is valid before exactly when it is valid after, and keeps its node's own fields. |
| TreeUtils.MoveNode | src/utils/treeUtils.js:195-245 | As written, the move throws exactly for a truthy id that is not in the tree. A falsy id returns the tree. Whenever it returns, the ids are the same multiset as before. |
| TreeUtils.MoveNodeThrowsOnMissingNode | src/utils/treeUtils.js:198 | As written, moving an id that is truthy but absent throws. |
| TreeUtils.MoveNodeThrowsOnEmptyTree | src/utils/treeUtils.js:198-199 | As written, moving id "a" in an empty tree throws instead of returning the tree. |
| TreeUtils.MoveNodeGuarded | src/utils/treeUtils.js:195-246 | An absent node leaves the tree unchanged. Wherever the as-written move returns, the two agree. |
| TreeUtils.MoveKeepsIdMultiset | src/utils/treeUtils.js:195-246 | Moving neither loses nor duplicates an id: the ids are the same multiset before and after. |
| TreeUtils.MoveToRootAtSlot | src/utils/treeUtils.js:206-213 | With a null parent, the node sits at the slot among the remaining roots (the index if in range, else last), with the other roots in order around it. |
| TreeUtils.MoveFallsBackToRoot | src/utils/treeUtils.js:216-231 | A parent id that names no folder once the node is removed puts the node last at the root. |
| TreeUtils.MoveIntoFolderAtSlot | src/utils/treeUtils.js:233-243 | A valid target folder gains the node at the slot among its children and is opened; its other fields stay. Outside the folder's children, the result has the same paths as the tree left by the removal, with the same node fields. |
| TreeUtils.MoveKeepsIdsUnique | src/utils/treeUtils.js:195-246 | Moving keeps ids unique. |
| TreeUtils.MoveIntoOwnSubtreeFallsBack | src/utils/treeUtils.js:217-231 | With unique ids, a move into the node itself or below it ends with the node appended at the root. |
| TreeUtils.ParentRankDrops | src/utils/treeUtils.js:281-287 | The parent found for an id comes earlier in pre-order, so the upward walk ends. |
| TreeUtils.CanDrop | src/utils/treeUtils.js:250-309 | The method, including the upward walk loop, computes the as-written verdict `DropVerdict`. |
| TreeUtils.DropVerdict | src/utils/treeUtils.js:250-309 | As written, the check throws exactly when the dragged id is truthy and either it is absent, or the target is not null and is falsy or absent. An allowed drop has an existing dragged node. For a non-null target, that target is a folder other than the dragged node. `DropVerdictCharacterised` gives the full answer. |
| TreeUtils.DropAtRootAllowed | src/utils/treeUtils.js:256-259 | An existing node can always be dropped at the root. |
| TreeUtils.DropVerdictThrowsOnMissingIds | src/utils/treeUtils.js:253-262 | As written, a truthy dragged id that is absent, or a non-null target that is falsy or absent, throws. |
| TreeUtils.DropVerdictThrowsOnAbsentTarget | src/utils/treeUtils.js:262-266 | As written, dropping onto an absent target in a one-file tree throws instead of refusing. |
| TreeUtils.CanDropGuarded | src/utils/treeUtils.js:250-309 | Wherever the as-written check returns, the two agree. An allowed drop has an existing dragged node and, for a non-null target, an existing folder other than the dragged node. |
| TreeUtils.WalkMeetsAncestor | src/utils/treeUtils.js:281-287 | With unique ids, if the upward walk meets the dragged id, the dragged node is a proper ancestor of the start. |
| TreeUtils.OnPathIffInside | src/utils/treeUtils.js:303-306 | With unique ids, the dragged id is on the root path of the target exactly when the target lies inside the dragged folder's children, that is, below the dragged node. |
| TreeUtils.DropVerdictCharacterised | src/utils/treeUtils.js:250-309 | With unique ids and both ids present, the drop is allowed exactly when the target is a folder, is not the dragged node, and is not inside it. |
| TreeUtils.AllowedDropIsHonoured | src/utils/treeUtils.js:217-236 | With unique ids, after an allowed drop the move finds the target folder once the dragged node is removed, so it does not fall back to the root. |
| TreeUtils.AfterLastDot | src/utils/treeUtils.js:314-315 | There is no part after a dot exactly when the name has no dot. Otherwise the part has no dot, and a dot directly precedes it at the end of the name. |
| TreeUtils.ToLower | src/utils/treeUtils.js:315 | The result has the same length as the input, and each character is lower-cased (ASCII). |
| TreeUtils.GetFileExtension | src/utils/treeUtils.js:312-316 | A name without a dot gives "". Otherwise the result is the lower-cased, dot-free end of the name, and a dot directly precedes that end. |
| TreeUtils.FileExtensionOfDottedName | src/utils/treeUtils.js:312-316 | The extension of `base.ext` is `ext` in lower case, for any dot-free `ext`. A name without a dot has the empty extension. |
| History.Record | src/hooks/useFileTree.js:41-52 | Entries after the current one are discarded and the new tree is appended as current. For a history of at most 30 trees, the newest 30 entries are kept and the result is a valid history. |
| History.Undo | src/hooks/useFileTree.js:73-85 | Undo steps back by one when there is an earlier tree, and otherwise does nothing. The entries are kept and validity is preserved. |
| History.Redo | src/hooks/useFileTree.js:74-96 | Redo steps forward by one when there is a later tree, and otherwise does nothing. The entries are kept and validity is preserved. |
| History.RecordClearsRedo | src/hooks/useFileTree.js:41-52 | After recording, the history is valid, there is nothing to redo, and there is always something to undo. |
| History.UndoRedoRoundTrip | src/hooks/useFileTree.js:73-96 | Undo then redo, and redo then undo, return to the same history. |
| History.UndoAfterRecord | src/hooks/useFileTree.js:41-85 | Undo right after recording returns to the tree that was current before. This holds even when the history was full, because the bound drops only the oldest entry. |
| History.RecordAllKeepsNewest | src/hooks/useFileTree.js:17-52 | Recording any number of trees after a start keeps exactly the newest 30, the last one current. |
| History.ManyEditsKeepThirty | src/hooks/useFileTree.js:17-85 | After 29 or more edits from a fresh start, exactly 30 trees are kept; 29 undos reach the oldest kept tree, and a 30th undo changes nothing. |
| History.FortyEditsKeepThirty | src/hooks/useFileTree.js:17-85 | After 40 edits, 30 trees are kept. 29 undos reach the tree of the eleventh edit (`ts[10]`), and one more undo changes nothing. |
| FileTreeHook.Accepted | src/hooks/useFileTree.js:157-169 | The data is accepted exactly when it is an array whose every item is a node. The imported tree then has those nodes, in order. |
| FileTreeHook.NewFileName | src/hooks/useFileTree.js:117 | A name with a dot is kept unchanged. A name without a dot becomes exactly that name followed by ".txt", so its extension is "txt". |
| FileTreeHook.ResolveParent | src/hooks/useFileTree.js:119-123 | A given parent id is kept. A null parent id becomes the selected id when the selection is a folder. The parent is null exactly when neither applies. |
| FileTreeHook.NewNodeIsShown | src/hooks/useFileTree.js:124-128 | With unique ids, a fresh node added and made visible keeps ids unique and is found with its own fields. Every folder above it with a truthy id is open. |
| FileTreeHook.VisibleShows | src/utils/treeUtils.js:168-189 | With unique ids, making a present node visible keeps ids unique, opens every folder above it with a truthy id and leaves the node's own fields. |
| FileTreeHook.DeletedIsGone | src/hooks/useFileTree.js:111-114 | With unique ids, after a deletion the id can no longer be found and ids stay unique. |
| FileTreeHook.FileTree.constructor | src/hooks/useFileTree.js:20-32 | The saved tree, or else the initial tree, is current. The history is that one tree. Nothing is selected and no menu is open. |
| FileTreeHook.FileTree.SetTreeDataWithHistory | src/hooks/useFileTree.js:35-57 | The new tree is current, the history is the recorded `Timeline`, and the invariant holds. |
| FileTreeHook.FileTree.Undo | src/hooks/useFileTree.js:76-85 | The history steps back. When it can, the earlier tree becomes current and the selection and context menu are cleared; otherwise nothing changes. |
| FileTreeHook.FileTree.Redo | src/hooks/useFileTree.js:87-96 | The history steps forward. When it can, the later tree becomes current and the selection and context menu are cleared; otherwise nothing changes. |
| FileTreeHook.FileTree.SelectNode | src/hooks/useFileTree.js:99 | Only the selection changes. |
| FileTreeHook.FileTree.ToggleFolder | src/hooks/useFileTree.js:101-103 | The toggled tree is current and recorded. |
| FileTreeHook.FileTree.OpenContextMenu | src/hooks/useFileTree.js:105-108 | The menu node becomes the found node. An id that is not found changes nothing. |
| FileTreeHook.FileTree.CloseContextMenu | src/hooks/useFileTree.js:109 | Only the menu node is cleared. |
| FileTreeHook.FileTree.DeleteNode | src/hooks/useFileTree.js:111-114 | The tree without the node is current and recorded. The selection is cleared exactly when it was the deleted id. With unique ids, the id can no longer be found and ids stay unique. |
| FileTreeHook.FileTree.Create | src/hooks/useFileTree.js:116-147 | The node is added under the resolved parent, made visible, recorded and selected. With unique ids, it is shown and ids stay unique. |
| FileTreeHook.FileTree.CreateFile | src/hooks/useFileTree.js:116-131 | A file with the completed name and a one-line comment is added, made visible, recorded and selected. With unique ids, it is found as built, every folder above it is open, and ids stay unique. |
| FileTreeHook.FileTree.CreateFolder | src/hooks/useFileTree.js:133-147 | An open, empty folder is added, made visible, recorded and selected. With unique ids, it is found and every folder above it is open. |
| FileTreeHook.FileTree.RenameItem | src/hooks/useFileTree.js:149-151 | The renamed tree is current and recorded. |
| FileTreeHook.FileTree.MoveItem | src/hooks/useFileTree.js:153-155 | The moved tree is current and recorded, and ids stay unique. |
| FileTreeHook.FileTree.ImportTreeData | src/hooks/useFileTree.js:157-169 | The result is true exactly for accepted data. The imported tree is then current and the whole history, and the selection and menu are cleared. Rejected data changes nothing. |
| FileTreeHook.FileTree.ResetTreeData | src/hooks/useFileTree.js:173-180 | The initial tree is current and the whole history, and the selection and menu are cleared. |

## Left out

- `generateId` (src/utils/treeUtils.js:6-8) reads the clock and a random number. `CreateFile` and `CreateFolder` take its result as a parameter instead, and they require it to be truthy and not already used in the tree.
- `cloneTree` is the identity on values. Its failure paths (an input that is not an array, a failed JSON round trip) cannot arise in the model.
- `Array.isArray(tree)` guards and `Array.isArray(node.children)` checks are left out. Every tree is a sequence, and every folder has a children sequence.
- Local storage reads and writes (useFileTree.js:21-22, 54, 81, 92), JSON parsing of the saved tree and of imported text, and `exportTreeData` are left out. Parsing is reduced to the outcome that the import check sees (`Imported`), and a saved tree is an `Option<Forest>` parameter of the constructor.
- The contents of `src/data/initialTree.js` are not part of this model. The initial tree is a constructor parameter.
- React's state batching, stale closures, `useCallback` dependency lists and the mount-time `useEffect` safeguard (useFileTree.js:60-71) are left out. Each method acts on the current fields, and the invariant that the safeguard restores always holds in the model.
- The `isUndoRedo = true` path of `setTreeDataWithHistory` is left out, because no caller uses it.
- `contextMenuPosition` and the `x`, `y` arguments of `openContextMenu` are left out. They do not affect the tree or the history.
- `console.warn` and `alert` are left out.
- Type checks on values that the model's types already fix are left out: `typeof newName`, `typeof filename`, and ids that are not strings.
- TreeUtils.ToLower: lower-cases ASCII letters only, where JavaScript's `toLowerCase` follows Unicode.
- TreeUtils.Visible: stated in terms of the loop over the ancestor ids. The ancestor-opening property (`VisibleOpensAncestors`) holds under unique ids; with duplicate ids, a lookup can open another node that carries the same id.
- FileTreeHook.FileTree.CreateFolder: states only the found folder's own fields (`Label`), not that its children are empty after the visibility step.
- FileTreeHook.FileTree.MoveItem: uses the corrected move (`MoveNodeGuarded`). As written, `moveNode` throws for an absent id (see Findings), and the hook would then lose the update.
- A node's extra properties, such as a folder's missing `children` (`|| []`, treeUtils.js:137, 234, 277) or unknown JSON fields, are left out, because the datatype has exactly the documented fields.

## Findings

| source | as written | input that shows it | evidently intended | confidence | as-written member | corrected member |
|---|---|---|---|---|---|---|
| src/utils/treeUtils.js:198-199 | `const { node } = findNodeById(tree, nodeId)` destructures `null` when the id is truthy but absent, which throws a TypeError | `moveNode([], "a", null, -1)` | return the tree unchanged, as line 199 says | not executed | TreeUtils.MoveNodeThrowsOnEmptyTree | TreeUtils.MoveNodeGuarded |
| src/utils/treeUtils.js:253-266 | the results of `findNodeById(tree, draggedNodeId)` and `findNodeById(tree, targetFolderId)` are destructured without a null check, so an absent id throws | `canDrop([{id:"a", type:"file"}], "a", "b")` | return `false`, as lines 254 and 265-266 say | not executed | TreeUtils.DropVerdictThrowsOnAbsentTarget | TreeUtils.CanDropGuarded |
