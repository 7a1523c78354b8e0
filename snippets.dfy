/** The part of the snippet collection that `deleteFolder` touches. */
module Snippets {
  import opened Wrappers
  import opened FolderTree

  /** A stored snippet: its own id, the folder it belongs to (`null` for the
      inbox) and its trash flag. */
  datatype Snippet = Snippet(id: string, folderId: Option<string>, isDeleted: bool)

  /** The selector `{ folderId: { $in: ids } }`. */
  predicate InFolders(s: Snippet, ids: seq<string>)
  {
    s.folderId.Some? && s.folderId.value in ids
  }

  /** The bulk update `{ $set: { isDeleted: true } }` with `multi: true` on
      every snippet the selector matches; every other snippet is untouched. */
  function TrashIn(ss: seq<Snippet>, ids: seq<string>): (r: seq<Snippet>)
    ensures |r| == |ss|
    ensures forall k | 0 <= k < |ss| ::
      r[k] == if InFolders(ss[k], ids) then ss[k].(isDeleted := true) else ss[k]
  {
    if ss == [] then []
    else [if InFolders(ss[0], ids) then ss[0].(isDeleted := true) else ss[0]] + TrashIn(ss[1..], ids)
  }

  /** Trashing the same selection again changes nothing. */
  lemma TrashInTwice(ss: seq<Snippet>, ids: seq<string>)
    ensures TrashIn(TrashIn(ss, ids), ids) == TrashIn(ss, ids)
  {
    var once := TrashIn(ss, ids);
    var twice := TrashIn(once, ids);
    assert |twice| == |once|;
    forall k | 0 <= k < |once| ensures twice[k] == once[k] {
      assert InFolders(once[k], ids) == InFolders(ss[k], ids);
    }
  }

  /** Cascade over a subtree: with the ids of `n`'s subtree, a snippet ends
      up in the trash exactly when it was there already or its folder is `n`
      or lies anywhere below `n`; nothing else about any snippet changes. */
  lemma TrashSubtree(ss: seq<Snippet>, n: Folder, k: nat)
    requires k < |ss|
    ensures var r := TrashIn(ss, SubtreeIds(n));
      |r| == |ss| && r[k].id == ss[k].id && r[k].folderId == ss[k].folderId &&
      (r[k].isDeleted <==>
        ss[k].isDeleted ||
        (ss[k].folderId.Some? &&
         (ss[k].folderId.value == n.id ||
          exists g :: InForest(g, n.children) && g.id == ss[k].folderId.value)))
  {
    if ss[k].folderId.Some? {
      SubtreeIdsExact(n, ss[k].folderId.value);
    }
  }
}
