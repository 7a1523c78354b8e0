/** The `folders` store module: its five state fields, its getters and its
    actions. The datastore's `folders` document, the snippet collection and
    the `selectedFolderId` preference are fields too; their callbacks are
    taken as synchronous successes. */
module FoldersStore {
  import opened Wrappers
  import opened FolderTree
  import opened FolderEdit
  import opened FolderRemove
  import opened Selection
  import opened Snippets

  class FolderStore {
    /** The five fields of the module's state. */
    var list: seq<Folder>
    var selected: Option<Folder>
    var selectedId: Option<string>
    var selectedIds: Option<seq<string>>
    var editableId: Option<string>

    /** `list` of the `{ _id: 'folders' }` document; `None` while that
        document does not exist. */
    var document: Option<seq<Folder>>
    /** The `selectedFolderId` entry of the preference store. */
    var hint: Option<string>
    /** The snippet collection. */
    var snippets: seq<Snippet>

    /** Whenever a folder is selected, `selectedIds` holds its subtree's ids;
        otherwise it is `null`. Every action keeps this. */
    ghost predicate Valid()
      reads this
    {
      selectedIds == if selected.Some? then Some(SubtreeIds(selected.value)) else None
    }

    /** The module's initial state next to the given stored data. */
    constructor (document: Option<seq<Folder>>, snippets: seq<Snippet>, hint: Option<string>)
      ensures Valid()
      ensures list == [] && selected == None && selectedId == None && selectedIds == None && editableId == None
      ensures this.document == document && this.snippets == snippets && this.hint == hint
    {
      list := [];
      selected := None;
      selectedId := None;
      selectedIds := None;
      editableId := None;
      this.document := document;
      this.snippets := snippets;
      this.hint := hint;
    }

    /** Getter `defaultLanguage`: `undefined` unless a folder is selected. */
    function DefaultLanguage(): (r: Option<string>)
      reads this
      ensures r.Some? <==> selected.Some?
      ensures r.Some? ==> r.value == selected.value.defaultLanguage
    {
      if selected.Some? then Some(selected.value.defaultLanguage) else None
    }

    /** Getter `isSystemFolder`: the selected id is one of the library items
        that `setSelectedFolder` keeps out of the tree. */
    function IsSystemFolder(): (b: bool)
      reads this
      ensures b <==> selectedId.Some? && selectedId.value in LibraryItems
    {
      selectedId == Some("trash") || selectedId == Some("favorites") ||
      selectedId == Some("allSnippets") || selectedId == Some("inBox")
    }

    /** Getter `defaultQueryBySystemFolder`: defined exactly for the system
        folders. The favourites key is `isFavorites`. */
    function DefaultQueryBySystemFolder(): (q: Option<Query>)
      reads this
      ensures q.Some? <==> IsSystemFolder()
      ensures selectedId == Some("trash") ==> q == Some(Match("isDeleted", True))
      ensures selectedId == Some("favorites") ==> q == Some(Match("isFavorites", True))
      ensures selectedId == Some("allSnippets") ==> q == Some(MatchAll)
      ensures selectedId == Some("inBox") ==> q == Some(Match("folderId", Null))
    {
      var query: Option<Query> := None;
      var query := if selectedId == Some("trash") then Some(Match("isDeleted", True)) else query;
      var query := if selectedId == Some("favorites") then Some(Match("isFavorites", True)) else query;
      var query := if selectedId == Some("allSnippets") then Some(MatchAll) else query;
      var query := if selectedId == Some("inBox") then Some(Match("folderId", Null)) else query;
      query
    }

    /** Action `getFolders`: copies the stored list into `list` when the
        document exists. */
    method GetFolders()
      modifies this`list
      ensures list == if document.Some? then document.value else old(list)
    {
      if document.Some? {
        list := document.value;
      }
    }

    /** Action `updateFolders`: overwrites the stored list (the update does not
        create a missing document), then reloads it. */
    method UpdateFolders(newList: seq<Folder>)
      modifies this`document, this`list
      ensures document == if old(document).Some? then Some(newList) else None
      ensures list == if old(document).Some? then newList else old(list)
    {
      if document.Some? {
        document := Some(newList);
      }
      GetFolders();
    }

    /** Action `setSelectedIds`: nothing when no folder is selected, else the
        pre-order ids of the selected folder's subtree. */
    method SetSelectedIds()
      modifies this`selectedIds
      ensures selected.None? ==> selectedIds == old(selectedIds)
      ensures selected.Some? ==> selectedIds == Some(SubtreeIds(selected.value))
    {
      if selected.None? {
        return;
      }
      var root := [selected.value];
      assert root[0] == selected.value && root[1..] == [];
      assert ForestIds(root) == SubtreeIds(selected.value);
      var ids := GetIds(root, []);
      assert ids == ForestIds(root);
      selectedIds := Some(ids);
    }

    /** The `findFolderById` closure of `setSelectedFolder`: each call commits
        the last match of its own array to `selected`, after the nested calls
        for the children have committed theirs. */
    method FindFolderById(folders: seq<Folder>, id: string)
      modifies this`selected
      ensures selected == SelectAfter(folders, id, old(selected))
      decreases folders
    {
      var found: Option<Folder> := None;
      var k := 0;
      assert folders[0..] == folders;
      while k < |folders|
        invariant 0 <= k <= |folders|
        invariant Scan(folders[k..], id, found, selected) == Scan(folders, id, None, old(selected))
      {
        var i := folders[k];
        assert folders[k..][0] == i && folders[k..][1..] == folders[k + 1..];
        if i.id == id {
          found := Some(i);
        }
        if |i.children| > 0 {
          FindFolderById(i.children, id);
        }
        k := k + 1;
      }
      if found.Some? {
        selected := found;
      }
    }

    /** Action `setSelectedFolder`. A falsy id clears `selectedId` and the
        preference only; a library item clears `selected` and `selectedIds`;
        any other id selects the node found in `list`, keeping the previous
        `selected` when there is none, and recomputes `selectedIds`. */
    method SetSelectedFolder(id: Option<string>)
      requires Valid()
      modifies this`selectedId, this`hint, this`selected, this`selectedIds
      ensures Valid()
      ensures Falsy(id) ==>
        selectedId == None && hint == None && selected == old(selected) && selectedIds == old(selectedIds)
      ensures !Falsy(id) ==> selectedId == id && hint == id
      ensures !Falsy(id) && id.value in LibraryItems ==> selected == None && selectedIds == None
      ensures !Falsy(id) && id.value !in LibraryItems ==> selected == SelectAfter(list, id.value, old(selected))
      ensures !Falsy(id) && id.value !in LibraryItems && UniqueIds(list) ==>
        selected == if id.value in ForestIds(list) then Find(list, id.value) else old(selected)
    {
      if Falsy(id) {
        selectedId := None;
        hint := None;
        return;
      }
      selectedId := id;
      hint := id;
      if id.value in LibraryItems {
        selected := None;
        selectedIds := None;
        return;
      }
      FindFolderById(list, id.value);
      SetSelectedIds();
      if UniqueIds(list) {
        SelectAfterFinds(list, id.value, old(selected));
      }
    }

    /** Action `addFolder` with `id` the value `shortid()` returned: appends a
        new root-level folder to the stored list, makes it the editable and
        selected folder, and reloads the list. Without a stored document the
        append does nothing but the selection still moves. */
    method AddFolder(id: string)
      requires Valid()
      modifies this`document, this`list, this`editableId, this`selected, this`selectedId, this`selectedIds
      ensures Valid()
      ensures var folder := Folder(id, "Untitled", false, "text", []);
        document == (if old(document).Some? then Some(old(document).value + [folder]) else None) &&
        editableId == Some(id) && selected == Some(folder) && selectedId == Some(id) && selectedIds == Some([id])
      ensures list == if old(document).Some? then document.value else old(list)
      ensures old(document).Some? ==> ForestIds(document.value) == ForestIds(old(document).value) + [id]
      ensures old(document).Some? && UniqueIds(old(document).value) && id !in ForestIds(old(document).value) ==>
        UniqueIds(document.value)
    {
      var folder := Folder(id, "Untitled", false, "text", []);
      if document.Some? {
        ForestIdsAppend(document.value, [folder]);
        assert ForestIds([folder]) == [id];
        NoDupAppend(ForestIds(document.value), [id]);
        document := Some(document.value + [folder]);
      }
      editableId := Some(id);
      selected := Some(folder);
      selectedId := Some(id);
      selectedIds := Some([id]);
      assert SubtreeIds(folder) == [id];
      GetFolders();
    }

    /** Action `updateFolderName`: renames every node with the id in the
        stored list and writes the list back. A missing document makes the
        destructuring throw, so nothing changes. */
    method UpdateFolderName(id: string, payload: string)
      modifies this`document, this`list
      ensures old(document).None? ==> document == None && list == old(list)
      ensures old(document).Some? ==>
        document == Some(UpdateForest(old(document).value, id, SetName(payload))) && list == document.value
    {
      if document.None? {
        return;
      }
      var l := FindAndUpdate(document.value, id, SetName(payload));
      UpdateFolders(l);
    }

    /** Action `updateFolderLanguage`: as `updateFolderName` for
        `defaultLanguage`, then selects the folder again when it is the
        selected one, so that `defaultLanguage` reports the new language. */
    method UpdateFolderLanguage(id: string, payload: string)
      requires Valid()
      modifies this`document, this`list, this`selectedId, this`hint, this`selected, this`selectedIds
      ensures Valid()
      ensures old(document).None? ==>
        document == None && list == old(list) && selectedId == old(selectedId) && hint == old(hint) &&
        selected == old(selected) && selectedIds == old(selectedIds)
      ensures old(document).Some? ==>
        document == Some(UpdateForest(old(document).value, id, SetLanguage(payload))) && list == document.value
      ensures old(document).Some? && old(selectedId) != Some(id) ==>
        selectedId == old(selectedId) && hint == old(hint) && selected == old(selected) && selectedIds == old(selectedIds)
      ensures old(document).Some? && old(selectedId) == Some(id) && id == "" ==>
        selectedId == None && hint == None && selected == old(selected) && selectedIds == old(selectedIds)
      ensures old(document).Some? && old(selectedId) == Some(id) && id != "" ==>
        selectedId == Some(id) && hint == Some(id) &&
        (id in LibraryItems ==> selected == None && selectedIds == None) &&
        (id !in LibraryItems ==> selected == SelectAfter(list, id, old(selected)))
      ensures (old(document).Some? && old(selectedId) == Some(id) && id != "" && id !in LibraryItems &&
               UniqueIds(old(document).value) && id in ForestIds(old(document).value)) ==>
        selected == Find(list, id) && DefaultLanguage() == Some(payload)
    {
      if document.None? {
        return;
      }
      ghost var before := document.value;
      var l := FindAndUpdate(document.value, id, SetLanguage(payload));
      UpdateFolders(l);
      if selectedId == Some(id) {
        UpdateKeepsIds(before, id, SetLanguage(payload));
        FindAfterUpdate(before, id, SetLanguage(payload), id);
        SetSelectedFolder(Some(id));
      }
    }

    /** Action `deleteFolder`. First callback: every snippet in the current
        `selectedIds` (not the ids under the argument) goes to the trash; with
        `selectedIds` null the store rejects the `$in` and nothing changes.
        Second callback: `findAndRemove` on the stored list, write-back,
        reload, and selection of `allSnippets`. */
    method DeleteFolder(id: string)
      requires Valid()
      modifies this`snippets, this`document, this`list, this`selectedId, this`hint, this`selected, this`selectedIds
      ensures Valid()
      ensures snippets == if old(selectedIds).Some? then TrashIn(old(snippets), old(selectedIds).value) else old(snippets)
      ensures old(selected).Some? ==> snippets == TrashIn(old(snippets), SubtreeIds(old(selected).value))
      ensures old(selected).None? ==> snippets == old(snippets)
      ensures old(document).None? ==>
        document == None && list == old(list) && selectedId == old(selectedId) && hint == old(hint) &&
        selected == old(selected) && selectedIds == old(selectedIds)
      ensures old(document).Some? ==>
        document == Some(RemoveForest(old(document).value, id)) && list == document.value &&
        selectedId == Some("allSnippets") && hint == Some("allSnippets") && selected == None && selectedIds == None
      ensures old(document).Some? && UniqueIds(old(document).value) ==> UniqueIds(document.value)
    {
      if selectedIds.Some? {
        snippets := TrashIn(snippets, selectedIds.value);
      }
      if document.None? {
        return;
      }
      var l := FindAndRemove(document.value, id);
      if UniqueIds(document.value) {
        RemoveKeepsUnique(document.value, id);
      }
      document := Some(l);
      GetFolders();
      SetSelectedFolder(Some("allSnippets"));
    }
  }
}
