# Folder tree engine of massCode, modelled in Dafny

This project models the `folders` store module of massCode's renderer
(`src/renderer/store/modules/folders.js`). The module keeps a forest of
folders and a selection state. Its five state fields are `list`, `selected`,
`selectedId`, `selectedIds` and `editableId`. Its actions:

- load the forest from the single `folders` document of the datastore;
- select a folder or a system folder (`inBox`, `favorites`, `allSnippets`,
  `trash`) and derive the ids of the selected folder's subtree;
- create a root-level folder;
- rename a folder or change its default language by a recursive
  search-and-update;
- delete a folder with its subtree, trashing the snippets of the current
  selection on the way.

Modules, one file each:

- `Wrappers` (`wrappers.dfy`): `Option`, standing for `null`/`undefined`.
- `FolderTree` (`folder_tree.dfy`): the `Folder` node, pre-order id lists,
  reachability, `Find`, and the `getIds` walk as the method `GetIds`.
- `FolderEdit` (`folder_edit.dfy`): the `findAndUpdate` walk used by
  `updateFolderName` and `updateFolderLanguage`, and its specification.
- `FolderRemove` (`folder_remove.dfy`): the `findAndRemove` walk as written
  (a splice inside `forEach`) and a reference removal `Prune` it equals when
  ids are unique.
- `Selection` (`selection.dfy`): library items, JavaScript falsiness of an
  id, the query objects, and the commit behaviour of `findFolderById`.
- `Snippets` (`snippets.dfy`): snippet records and the bulk
  `$set: { isDeleted: true }` update.
- `FoldersStore` (`folders_store.dfy`): class `FolderStore` with the five
  state fields, the getters and the actions. Three fields stand for the
  collaborators: `document` is the `list` of the `folders` document (`None`
  when that document is missing), `hint` is the `selectedFolderId`
  preference, and `snippets` is the snippet collection.
- `Scenario` (`scenario.dfy`): two client methods that drive the store
  through select-then-delete on the forest {A[B[C]], D}.

Modelling decisions:

- Store callbacks are treated as synchronous successes. The two independent
  callbacks of `deleteFolder` run in source order.
- `shortid()` becomes the `id` parameter of `AddFolder`.
- A missing `folders` document is modelled. Then `getFolders` changes
  nothing. `addFolder`'s `$push` has no upsert, so nothing is stored, but
  the selection still moves to the new folder. `updateFolderName`,
  `updateFolderLanguage` and the folder half of `deleteFolder` destructure
  the missing document and throw, so they change nothing.
- `deleteFolder` with `selectedIds` null passes `$in: null`. The datastore
  rejects a `$in` whose operand is not an array, and the callback returns
  on the error. So no snippet changes.
- A node created by `addFolder` has no `children` key. The model uses the
  empty sequence; every walk treats the two the same way.
- Folder ids are assumed unique only where a lemma says so. The walks are
  modelled as written for any input, duplicates included.

Behaviour of the code that the model keeps as written:

- A falsy id clears only `selectedId` and the preference. `selected` and
  `selectedIds` keep their values.
- An id that is not in the tree keeps the previous `selected`, and
  `selectedIds` is recomputed from it.
- The favourites query key is `isFavorites`, not `isFavorite`.
- The trash cascade of `deleteFolder` uses the current `selectedIds`, not
  the ids under the deleted folder. `Scenario.DeleteUnselected` shows the
  result when another folder is selected.

## Model

| member | source | states |
|---|---|---|
| `FolderTree.Find` | src/renderer/store/modules/folders.js:108-121 | The pre-order lookup finds nothing exactly when the id is absent from the forest's id list; otherwise it finds a node with that id that is reachable in the forest |
| `FolderTree.ForestIdsExact` | src/renderer/store/modules/folders.js:132-142 | An id is in the pre-order id list of a forest exactly when some node reachable through `children` has it |
| `FolderTree.SubtreeIdsExact` | src/renderer/store/modules/folders.js:127-145 | Descendant completeness: the ids gathered for `selected` are its own id and exactly the ids of the nodes below it |
| `FolderTree.GetIds` | src/renderer/store/modules/folders.js:132-140 | The recursive `getIds` appends the pre-order ids of the array, subtrees included, to the list it pushes onto |
| `FolderTree.ForestIdsAppend` | src/renderer/store/modules/folders.js:154-156 | Appending a root-level folder appends its subtree's ids at the end of the id list |
| `FolderEdit.FindAndUpdate` | src/renderer/store/modules/folders.js:174-185 | The `forEach` walk returns the forest with the edit applied on every level, as specified by `UpdateForest` |
| `FolderEdit.UpdateHeaders` | src/renderer/store/modules/folders.js:174-185 | In the pre-order node records, exactly the records whose id matches get the new name (or language); every other record is unchanged |
| `FolderEdit.UpdateKeepsRest` | src/renderer/store/modules/folders.js:202-213 | With the edited field blanked, the forest is unchanged: shape, order, ids, `open` and the other field stay |
| `FolderEdit.UpdateKeepsIds` | src/renderer/store/modules/folders.js:202-213 | The pre-order id list is unchanged by the walk, so unique ids stay unique |
| `FolderEdit.FindAfterUpdate` | src/renderer/store/modules/folders.js:213-220 | Looking up any id after the walk gives the walked copy of the node found before it; with the edited id this node carries the new value |
| `FolderRemove.FindAndRemove` | src/renderer/store/modules/folders.js:254-265 | The splice-in-`forEach` walk returns `RemoveForest`: a matching node goes with its subtree, and the sibling after it is passed over unvisited |
| `FolderRemove.RemoveIsPrune` | src/renderer/store/modules/folders.js:254-265 | With unique ids, the walk equals the plain removal of the node with the id and its subtree, at any depth |
| `FolderRemove.RemoveForestAbsent` | src/renderer/store/modules/folders.js:254-265 | An id absent from the forest leaves it unchanged |
| `FolderRemove.RemoveCutsSubtree` | src/renderer/store/modules/folders.js:254-265 | With unique ids, no node with the id remains, and the old id list is the new one with the found node's subtree ids put back as one block; every other node keeps its relative order |
| `FolderRemove.RemoveTwice` | src/renderer/store/modules/folders.js:254-265 | With unique ids, removing the same id a second time is a no-op |
| `FolderRemove.RemoveKeepsUnique` | src/renderer/store/modules/folders.js:254-265 | Removal keeps folder ids unique |
| `FolderRemove.RemoveSkipsNextSibling` | src/renderer/store/modules/folders.js:255-258 | With duplicate ids, a matching sibling right after a removed node survives, and so does a match nested under the skipped sibling |
| `Selection.SelectAfter` | src/renderer/store/modules/folders.js:108-121 | For every forest, ids repeated or not, `selected` after `findFolderById` is either the previous selection or a node of the forest, at any depth, whose id is the one looked for; in particular a selection is never cleared |
| `Selection.SelectAfterFinds` | src/renderer/store/modules/folders.js:106-123 | With unique ids, `findFolderById` leaves `selected` on the node with the id at any depth, or on its previous value when the id is absent |
| `Snippets.TrashIn` | src/renderer/store/modules/folders.js:239-242 | The bulk update sets `isDeleted` on exactly the snippets whose `folderId` is in the id list; every other snippet is unchanged, and the order and count stay |
| `Snippets.TrashInTwice` | src/renderer/store/modules/folders.js:239-242 | Trashing the same selection again changes nothing |
| `Snippets.TrashSubtree` | src/renderer/store/modules/folders.js:237-242 | With a folder's subtree ids, a snippet ends up trashed exactly when it already was, or its folder is that folder or any folder below it. Its id and folder are unchanged |
| `FoldersStore.FolderStore.constructor` | src/renderer/store/modules/folders.js:8-14 | Initial state: empty `list`, and `null` for `selected`, `selectedId`, `selectedIds` and `editableId`. It satisfies the selection invariant |
| `FoldersStore.FolderStore.DefaultLanguage` | src/renderer/store/modules/folders.js:28-32 | Defined exactly when a folder is selected, and then that folder's `defaultLanguage` |
| `FoldersStore.FolderStore.DefaultQueryBySystemFolder` | src/renderer/store/modules/folders.js:33-57 | Defined exactly when `isSystemFolder` holds (both directions): `{isDeleted:true}` for trash, `{isFavorites:true}` for favorites, `{}` for allSnippets, `{folderId:null}` for inBox |
| `FoldersStore.FolderStore.IsSystemFolder` | src/renderer/store/modules/folders.js:50-57 | Holds exactly when `selectedId` is one of the four library items (`inBox`, `favorites`, `allSnippets`, `trash`) that `setSelectedFolder` keeps out of the tree |
| `FoldersStore.FolderStore.GetFolders` | src/renderer/store/modules/folders.js:77-87 | `list` becomes the stored list when the document exists; otherwise nothing changes |
| `FoldersStore.FolderStore.UpdateFolders` | src/renderer/store/modules/folders.js:223-231 | The stored list is overwritten only if the document exists, then `list` is reloaded from it |
| `FoldersStore.FolderStore.SetSelectedIds` | src/renderer/store/modules/folders.js:127-145 | With `selected` null, `selectedIds` is unchanged; otherwise it is the pre-order subtree ids of `selected`, starting with its id |
| `FoldersStore.FolderStore.FindFolderById` | src/renderer/store/modules/folders.js:108-121 | The recursive walk leaves `selected` as `SelectAfter` says: each call commits its own last match after its nested calls have committed theirs |
| `FoldersStore.FolderStore.SetSelectedFolder` | src/renderer/store/modules/folders.js:88-126 | A falsy id sets `selectedId` to null and deletes the hint, leaving `selected` and `selectedIds`. A library item sets `selectedId` and the hint and clears both. Any other id selects the node, at any depth; with an absent id the old `selected` stays. `selectedIds` always matches `selected` |
| `FoldersStore.FolderStore.AddFolder` | src/renderer/store/modules/folders.js:146-167 | Appends exactly `{id, 'Untitled', open:false, 'text'}` at the end of the stored root list; the id list grows by exactly `id`. Sets `editableId`, `selectedId` and `selected` to the new folder and `selectedIds` to `[id]`, then reloads. A fresh id keeps ids unique |
| `FoldersStore.FolderStore.UpdateFolderName` | src/renderer/store/modules/folders.js:168-195 | The stored list and `list` become the renamed forest; nothing else changes, and nothing at all without a document |
| `FoldersStore.FolderStore.UpdateFolderLanguage` | src/renderer/store/modules/folders.js:196-222 | The stored list and `list` become the forest with the new language. The selection changes only when `selectedId` is the edited id. Then `setSelectedFolder(id)` runs again in full: `selectedId` and the `selectedFolderId` preference become the id (both cleared for an empty id), a library id clears the selection, and any other id gives `selected` from the `findFolderById` walk of the new `list`. With unique ids and the id in the tree, `defaultLanguage` reports the new language |
| `FoldersStore.FolderStore.DeleteFolder` | src/renderer/store/modules/folders.js:232-275 | Trashes the snippets in the current `selectedIds`, which is the subtree of the current `selected`; none when nothing is selected. With the document present, it stores and reloads `RemoveForest` and selects `allSnippets` (selection cleared). Unique ids stay unique |
| `Scenario.CascadeDelete` | src/renderer/store/modules/folders.js:232-275 | Selecting A in {A[B[C]], D} and deleting it trashes the snippets of A, B and C, keeps D's and the inbox's, leaves the forest {D} and selects `allSnippets` |
| `Scenario.DeleteUnselected` | src/renderer/store/modules/folders.js:232-247 | Deleting A while D is selected removes A's subtree but trashes D's snippet and keeps those of A, B and C |

## Left out

- Datastore and preference I/O: `db.masscode`, `db.snippets` and `electronStore` are fields. Their error branches (`if (err) return`) and the promises that never settle on error are not modelled.
- The asynchronous interleaving of the two callbacks of `deleteFolder` is not modelled; they run one after the other. Vue reactivity is not modelled either.
- The dispatches into other store modules are not modelled: `snippets/getSnippets` (with the query built by `defaultLibraryQuery`, whose helper file is not part of this model) and `snippets/setSelected`. They change nothing in this module's state.
- `shortid` id generation is not modelled: the fresh id is a parameter.
- The getters `folders`, `selectedId`, `selectedIds` and `editableId` only return a field; callers read the fields directly. The `SET_*` mutations are plain field assignments inside the actions.
- Object identity is not modelled: `selected` holds a copy of the node, not a reference into `list`. Nothing mutates a node of `list` in place, because the walks work on fresh copies of the stored document, so no behaviour depends on identity.
- `src/main/main.js` (window creation and lifecycle events) and `src/renderer/store/index.js` (store registration) hold no folder logic and are not part of this model.
- `Selection.SelectAfterFinds`: the selection is characterised by `Find` only for unique ids. With duplicate ids, `SelectAfter`'s contract says only that the result is the previous selection or some node carrying the id. Which of these nodes it is follows the as-written walk.
- `FolderRemove.RemoveCutsSubtree`: stated for unique ids. With duplicate ids the as-written walk can keep matches, which `RemoveSkipsNextSibling` shows.
