/** Selection of a folder: the system (library) folders, the content query a
    system folder stands for, and the `findFolderById` walk of
    `setSelectedFolder`. */
module Selection {
  import opened Wrappers
  import opened FolderTree

  /** The ids `setSelectedFolder` treats as library items rather than tree
      nodes. */
  const LibraryItems: seq<string> := ["inBox", "favorites", "allSnippets", "trash"]

  /** JavaScript's `!id` for an id that is a string, `null` or `undefined`. */
  predicate Falsy(id: Option<string>)
  {
    id.None? || id.value == ""
  }

  /** A value in a content query object. */
  datatype Value = True | Null

  /** A content query object: `{}`, or one key with its value. */
  datatype Query = MatchAll | Match(key: string, value: Value)

  /** Ids of the top-level nodes, in order. */
  function TopIds(fs: seq<Folder>): seq<string>
  {
    if fs == [] then [] else [fs[0].id] + TopIds(fs[1..])
  }

  /** One run of `findFolderById(fs, id)` entered with `selected == sel`:
      the pair (`found`, `selected`) once its `forEach` is done. Each visited
      node whose id matches becomes `found`; each node with children starts a
      nested call, which commits its own `found` to `selected` when it ends. */
  function Scan(fs: seq<Folder>, id: string, found: Option<Folder>, sel: Option<Folder>): (r: (Option<Folder>, Option<Folder>))
    ensures found.Some? ==> r.0.Some?
    ensures sel.Some? ==> r.1.Some?
    ensures r.0 == found || (r.0.Some? && r.0.value.id == id && InForest(r.0.value, fs))
    ensures r.1 == sel || (r.1.Some? && r.1.value.id == id && InForest(r.1.value, fs))
    decreases fs, 0
  {
    if fs == [] then (found, sel)
    else
      var i := fs[0];
      var found' := if i.id == id then Some(i) else found;
      var sel' := if |i.children| > 0 then SelectAfter(i.children, id, sel) else sel;
      Scan(fs[1..], id, found', sel')
  }

  /** `selected` after `findFolderById(fs, id)` entered with `selected == sel`:
      the call commits its own `found` last, if it has one. The walk only ever
      commits nodes of `fs` that carry the id, so it never clears a selection
      and, even with repeated ids, leaves either the old selection or such a
      node. */
  function SelectAfter(fs: seq<Folder>, id: string, sel: Option<Folder>): (r: Option<Folder>)
    ensures sel.Some? ==> r.Some?
    ensures r == sel || (r.Some? && r.value.id == id && InForest(r.value, fs))
    decreases fs, 1
  {
    var r := Scan(fs, id, None, sel);
    if r.0.Some? then r.0 else r.1
  }

  /** No match anywhere: neither `found` nor `selected` moves. */
  lemma {:induction false} ScanAbsent(fs: seq<Folder>, id: string, found: Option<Folder>, sel: Option<Folder>)
    requires id !in ForestIds(fs)
    ensures Scan(fs, id, found, sel) == (found, sel)
    decreases fs
  {
    if fs != [] {
      var i := fs[0];
      assert ForestIds(fs) == [i.id] + ForestIds(i.children) + ForestIds(fs[1..]);
      ScanAbsent(i.children, id, None, sel);
      ScanAbsent(fs[1..], id, found, sel);
    }
  }

  lemma {:induction false} TopIdsInForest(fs: seq<Folder>, id: string)
    requires id in TopIds(fs)
    ensures id in ForestIds(fs)
  {
    if fs[0].id != id {
      TopIdsInForest(fs[1..], id);
    }
  }

  /** With unique ids and one match, a top-level match ends up in `found`
      and a nested one has already been committed to `selected`. */
  lemma {:induction false} ScanUnique(fs: seq<Folder>, id: string, found: Option<Folder>, sel: Option<Folder>)
    requires UniqueIds(fs) && id in ForestIds(fs)
    ensures Scan(fs, id, found, sel) ==
      if id in TopIds(fs) then (Find(fs, id), sel) else (found, Find(fs, id))
    decreases fs
  {
    var i, rest := fs[0], fs[1..];
    var c, t := ForestIds(i.children), ForestIds(rest);
    assert ForestIds(fs) == ([i.id] + c) + t;
    NoDupAppend([i.id] + c, t);
    NoDupAppend([i.id], c);
    assert TopIds(fs) == [i.id] + TopIds(rest);
    if i.id == id {
      assert id in [i.id] + c;
      ScanAbsent(i.children, id, None, sel);
      ScanAbsent(rest, id, Some(i), sel);
    } else if id in c {
      assert id in [i.id] + c;
      ScanUnique(i.children, id, None, sel);
      ScanAbsent(rest, id, found, Find(fs, id));
      if id in TopIds(rest) {
        TopIdsInForest(rest, id);
      }
    } else {
      ScanAbsent(i.children, id, None, sel);
      ScanUnique(rest, id, found, sel);
    }
  }

  /** With unique ids, `findFolderById` selects the node with the id wherever
      it sits in the tree, and leaves the previous selection in place when
      the id is not in the tree. */
  lemma SelectAfterFinds(fs: seq<Folder>, id: string, sel: Option<Folder>)
    requires UniqueIds(fs)
    ensures SelectAfter(fs, id, sel) == if id in ForestIds(fs) then Find(fs, id) else sel
  {
    if id in ForestIds(fs) {
      ScanUnique(fs, id, None, sel);
    } else {
      ScanAbsent(fs, id, None, sel);
    }
  }
}
