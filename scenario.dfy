/** Clients of the store, proved from its contracts alone: the cascade of
    deleting a selected folder, and what the same action does when another
    folder is selected. The forest is {A[B[C]], D}; one snippet lives in each
    folder and one in the inbox. */
module Scenario {
  import opened Wrappers
  import opened FolderTree
  import opened FolderRemove
  import opened Selection
  import opened Snippets
  import opened FoldersStore

  function Leaf(id: string): Folder
  {
    Folder(id, "Untitled", false, "text", [])
  }

  function Sample(): seq<Folder>
  {
    [Folder("A", "Untitled", false, "text", [Folder("B", "Untitled", false, "text", [Leaf("C")])]), Leaf("D")]
  }

  function SampleSnippets(): seq<Snippet>
  {
    Trashed(false, false)
  }

  /** The sample snippets with those of A, B and C trashed or not, and D's
      trashed or not; the inbox snippet is never trashed. */
  function Trashed(abc: bool, d: bool): seq<Snippet>
  {
    [Snippet("s1", Some("A"), abc), Snippet("s2", Some("B"), abc), Snippet("s3", Some("C"), abc),
     Snippet("s4", Some("D"), d), Snippet("s5", None, false)]
  }

  lemma SampleIds()
    ensures ForestIds(Sample()) == ["A", "B", "C", "D"]
    ensures UniqueIds(Sample())
  {
    var ids := ForestIds(Sample());
    assert ids == ["A", "B", "C", "D"];
  }

  lemma SampleSelections()
    ensures Find(Sample(), "A") == Some(Sample()[0]) && SubtreeIds(Sample()[0]) == ["A", "B", "C"]
    ensures Find(Sample(), "D") == Some(Leaf("D")) && SubtreeIds(Leaf("D")) == ["D"]
  {
    SampleIds();
  }

  lemma SampleIdsSelectable()
    ensures !Falsy(Some("A")) && "A" !in LibraryItems
    ensures !Falsy(Some("D")) && "D" !in LibraryItems
  {
  }

  lemma SampleRemoveA()
    ensures RemoveForest(Sample(), "A") == [Leaf("D")]
  {
    var d := [Leaf("D")];
    assert RemoveWalk(d, "A", true) == d by {
      assert d[1..] == [];
    }
    assert Sample()[1..] == d;
  }

  lemma SampleTrashA()
    ensures TrashIn(SampleSnippets(), ["A", "B", "C"]) == Trashed(true, false)
  {
  }

  lemma SampleTrashD()
    ensures TrashIn(SampleSnippets(), ["D"]) == Trashed(false, true)
  {
  }

  /** Selecting A and deleting it trashes the snippets of A, B and C, keeps
      D's and the inbox's, leaves the forest {D} and selects `allSnippets`. */
  method CascadeDelete() returns (document: Option<seq<Folder>>, snippets: seq<Snippet>, selectedId: Option<string>)
    ensures document == Some([Leaf("D")])
    ensures snippets == Trashed(true, false)
    ensures selectedId == Some("allSnippets")
  {
    var store := new FolderStore(Some(Sample()), SampleSnippets(), None);
    store.GetFolders();
    assert store.list == Sample();
    SampleIds();
    SampleIdsSelectable();
    store.SetSelectedFolder(Some("A"));
    SampleSelections();
    assert store.selectedIds == Some(["A", "B", "C"]);
    assert store.document == Some(Sample()) && store.snippets == SampleSnippets();
    store.DeleteFolder("A");
    SampleRemoveA();
    SampleTrashA();
    document, snippets, selectedId := store.document, store.snippets, store.selectedId;
  }

  /** Deleting A while D is selected removes A's subtree from the forest but
      trashes D's snippet, since the cascade follows the selection. */
  method DeleteUnselected() returns (document: Option<seq<Folder>>, snippets: seq<Snippet>)
    ensures document == Some([Leaf("D")])
    ensures snippets == Trashed(false, true)
  {
    var store := new FolderStore(Some(Sample()), SampleSnippets(), None);
    store.GetFolders();
    assert store.list == Sample();
    SampleIds();
    SampleIdsSelectable();
    store.SetSelectedFolder(Some("D"));
    SampleSelections();
    assert store.selectedIds == Some(["D"]);
    assert store.document == Some(Sample()) && store.snippets == SampleSnippets();
    store.DeleteFolder("A");
    SampleRemoveA();
    SampleTrashD();
    document, snippets := store.document, store.snippets;
  }
}
