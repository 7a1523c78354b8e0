/** The `findAndRemove` walk of `deleteFolder`, as written: `arr.splice(index, 1)`
    inside `arr.forEach`, so the sibling right after a removed node moves into
    the visited slot and is never looked at. `Prune` is the plain removal it
    amounts to when ids are unique. */
module FolderRemove {
  import opened Wrappers
  import opened FolderTree

  /** The walk over one array. `skipNext` is set right after a splice: the
      next sibling stays in place unvisited (neither matched nor descended
      into). A matching node is removed with its whole subtree; any other
      visited node has its children walked. */
  function RemoveWalk(fs: seq<Folder>, id: string, skipNext: bool): seq<Folder>
  {
    if fs == [] then []
    else if skipNext then [fs[0]] + RemoveWalk(fs[1..], id, false)
    else if fs[0].id == id then RemoveWalk(fs[1..], id, true)
    else [fs[0].(children := RemoveWalk(fs[0].children, id, false))] + RemoveWalk(fs[1..], id, false)
  }

  /** The forest left by `findAndRemove(list)`. */
  function RemoveForest(fs: seq<Folder>, id: string): seq<Folder>
  {
    RemoveWalk(fs, id, false)
  }

  /** Reference removal: drop every node with the id, with its subtree, at any
      depth, keeping everything else in order. */
  function Prune(fs: seq<Folder>, id: string): seq<Folder>
  {
    if fs == [] then []
    else if fs[0].id == id then Prune(fs[1..], id)
    else [fs[0].(children := Prune(fs[0].children, id))] + Prune(fs[1..], id)
  }

  /** Removing an id that is not in the forest changes nothing. */
  lemma {:induction false} RemoveAbsent(fs: seq<Folder>, id: string, skipNext: bool)
    requires id !in ForestIds(fs)
    ensures RemoveWalk(fs, id, skipNext) == fs
  {
    if fs != [] {
      assert ForestIds(fs) == [fs[0].id] + ForestIds(fs[0].children) + ForestIds(fs[1..]);
      RemoveAbsent(fs[0].children, id, false);
      RemoveAbsent(fs[1..], id, false);
    }
  }

  lemma {:induction false} PruneAbsent(fs: seq<Folder>, id: string)
    requires id !in ForestIds(fs)
    ensures Prune(fs, id) == fs
  {
    if fs != [] {
      assert ForestIds(fs) == [fs[0].id] + ForestIds(fs[0].children) + ForestIds(fs[1..]);
      PruneAbsent(fs[0].children, id);
      PruneAbsent(fs[1..], id);
    }
  }

  /** After pruning, no node with the id is left at any depth. */
  lemma {:induction false} PruneRemovesAll(fs: seq<Folder>, id: string)
    ensures id !in ForestIds(Prune(fs, id))
  {
    if fs != [] {
      PruneRemovesAll(fs[0].children, id);
      PruneRemovesAll(fs[1..], id);
      if fs[0].id != id {
        var p := Prune(fs, id);
        var f' := fs[0].(children := Prune(fs[0].children, id));
        assert p == [f'] + Prune(fs[1..], id);
        assert p[0] == f' && p[1..] == Prune(fs[1..], id);
      }
    }
  }

  /** `whole` is `rest` with the contiguous `block` inserted at some position. */
  ghost predicate IsCut(whole: seq<string>, block: seq<string>, rest: seq<string>)
  {
    exists k :: 0 <= k <= |rest| && whole == rest[..k] + block + rest[k..]
  }

  /** A cut stays a cut when the same text surrounds both sides. */
  lemma CutInContext(a: seq<string>, w: seq<string>, block: seq<string>, r: seq<string>, b: seq<string>)
    requires IsCut(w, block, r)
    ensures IsCut(a + w + b, block, a + r + b)
  {
    var k :| 0 <= k <= |r| && w == r[..k] + block + r[k..];
    var r' := a + r + b;
    assert r'[..|a| + k] == a + r[..k];
    assert r'[|a| + k..] == r[k..] + b;
    assert a + w + b == r'[..|a| + k] + block + r'[|a| + k..];
  }

  /** With unique ids, the pre-order id list after pruning is the original one
      with the contiguous block of the removed subtree's ids cut out: the
      node goes with all its descendants and every other node keeps its
      relative order. */
  lemma {:induction false} PruneCutsSubtree(fs: seq<Folder>, id: string, n: Folder)
    requires UniqueIds(fs) && Find(fs, id) == Some(n)
    ensures IsCut(ForestIds(fs), SubtreeIds(n), ForestIds(Prune(fs, id)))
  {
    var f, rest := fs[0], fs[1..];
    var c, t := ForestIds(f.children), ForestIds(rest);
    assert ForestIds(fs) == ([f.id] + c) + t;
    NoDupAppend([f.id] + c, t);
    NoDupAppend([f.id], c);
    var p := Prune(fs, id);
    if f.id == id {
      assert id in [f.id] + c;
      PruneAbsent(rest, id);
      assert p == rest;
      var r := ForestIds(p);
      assert r == t && r[..0] == [] && r[0..] == r;
      assert ForestIds(fs) == r[..0] + SubtreeIds(n) + r[0..];
    } else if id in c {
      assert id in [f.id] + c;
      PruneAbsent(rest, id);
      var f' := f.(children := Prune(f.children, id));
      assert p == [f'] + rest;
      assert p[0] == f' && p[1..] == rest;
      assert ForestIds(p) == [f.id] + ForestIds(f'.children) + t;
      PruneCutsSubtree(f.children, id, n);
      CutInContext([f.id], c, SubtreeIds(n), ForestIds(f'.children), t);
    } else {
      PruneAbsent(f.children, id);
      assert f.(children := Prune(f.children, id)) == f;
      assert p == [f] + Prune(rest, id);
      assert p[0] == f && p[1..] == Prune(rest, id);
      assert ForestIds(p) == ([f.id] + c) + ForestIds(Prune(rest, id)) + [];
      PruneCutsSubtree(rest, id, n);
      CutInContext([f.id] + c, t, SubtreeIds(n), ForestIds(Prune(rest, id)), []);
      assert ForestIds(fs) == ([f.id] + c) + t + [];
    }
  }

  /** With unique ids the splice-in-`forEach` walk removes exactly what the
      reference removal does: the skipped sibling can hold no second match. */
  lemma {:induction false} RemoveIsPrune(fs: seq<Folder>, id: string)
    requires UniqueIds(fs)
    ensures RemoveForest(fs, id) == Prune(fs, id)
  {
    if fs != [] {
      var f, rest := fs[0], fs[1..];
      var c, t := ForestIds(f.children), ForestIds(rest);
      assert ForestIds(fs) == ([f.id] + c) + t;
      NoDupAppend([f.id] + c, t);
      NoDupAppend([f.id], c);
      if f.id == id {
        assert id in [f.id] + c;
        RemoveAbsent(rest, id, true);
        PruneAbsent(rest, id);
      } else {
        RemoveIsPrune(f.children, id);
        RemoveIsPrune(rest, id);
      }
    }
  }

  /** `findAndRemove` on an id that is absent leaves the forest unchanged. */
  lemma RemoveForestAbsent(fs: seq<Folder>, id: string)
    requires id !in ForestIds(fs)
    ensures RemoveForest(fs, id) == fs
  {
    RemoveAbsent(fs, id, false);
  }

  /** With unique ids, `findAndRemove` cuts the found node's whole subtree out
      of the pre-order id list and no node with the id remains. */
  lemma RemoveCutsSubtree(fs: seq<Folder>, id: string, n: Folder)
    requires UniqueIds(fs) && Find(fs, id) == Some(n)
    ensures id !in ForestIds(RemoveForest(fs, id))
    ensures IsCut(ForestIds(fs), SubtreeIds(n), ForestIds(RemoveForest(fs, id)))
  {
    RemoveIsPrune(fs, id);
    PruneRemovesAll(fs, id);
    PruneCutsSubtree(fs, id, n);
  }

  /** With unique ids, removing the same id a second time is a no-op. */
  lemma RemoveTwice(fs: seq<Folder>, id: string)
    requires UniqueIds(fs)
    ensures RemoveForest(RemoveForest(fs, id), id) == RemoveForest(fs, id)
  {
    RemoveIsPrune(fs, id);
    PruneRemovesAll(fs, id);
    RemoveAbsent(Prune(fs, id), id, false);
  }

  /** Removal keeps ids unique. */
  lemma RemoveKeepsUnique(fs: seq<Folder>, id: string)
    requires UniqueIds(fs)
    ensures UniqueIds(RemoveForest(fs, id))
  {
    if id !in ForestIds(fs) {
      RemoveAbsent(fs, id, false);
    } else {
      var n := Find(fs, id).value;
      RemoveCutsSubtree(fs, id, n);
      var r := ForestIds(RemoveForest(fs, id));
      var k :| 0 <= k <= |r| && ForestIds(fs) == r[..k] + SubtreeIds(n) + r[k..];
      var a, s, b := r[..k], SubtreeIds(n), r[k..];
      NoDupAppend(a + s, b);
      NoDupAppend(a, s);
      NoDupAppend(a, b);
      assert a + b == r;
    }
  }

  /** What the skip does on duplicate ids: the sibling right after a removed
      node survives even when it matches, and so does a match nested under it. */
  lemma RemoveSkipsNextSibling()
    ensures var a := Folder("a", "Untitled", false, "text", []);
      RemoveForest([a, a], "a") == [a]
    ensures var a := Folder("a", "Untitled", false, "text", []);
      var b := Folder("b", "Untitled", false, "text", [a]);
      RemoveForest([a, b], "a") == [b]
  {
  }

  /** The loop state of `findAndRemove` on `arr0` before visiting index `k`:
      the walked prefix of the current array followed by a fresh walk of
      the rest is the walk of the whole. */
  ghost predicate Walked(arr0: seq<Folder>, arr: seq<Folder>, k: nat, id: string)
  {
    var m := if k < |arr| then k else |arr|;
    arr[..m] + RemoveWalk(arr[m..], id, false) == RemoveWalk(arr0, id, false)
  }

  /** One iteration that splices out the visited node at `k`: the next
      sibling moves into slot `k` and is passed over. */
  lemma SpliceStep(arr0: seq<Folder>, arr: seq<Folder>, k: nat, id: string)
    requires k < |arr| && arr[k].id == id && Walked(arr0, arr, k, id)
    ensures Walked(arr0, arr[..k] + arr[k + 1..], k + 1, id)
  {
    assert arr[k..][0] == arr[k] && arr[k..][1..] == arr[k + 1..];
    var arr' := arr[..k] + arr[k + 1..];
    assert RemoveWalk(arr[k..], id, false) == RemoveWalk(arr[k + 1..], id, true);
    if k + 1 < |arr| {
      assert arr[k + 1..][0] == arr[k + 1] && arr[k + 1..][1..] == arr[k + 2..];
      assert RemoveWalk(arr[k + 1..], id, true) == [arr[k + 1]] + RemoveWalk(arr[k + 2..], id, false);
      assert arr'[..k + 1] == arr[..k] + [arr[k + 1]];
      assert arr'[k + 1..] == arr[k + 2..];
      assert arr'[..k + 1] + RemoveWalk(arr'[k + 1..], id, false) == arr[..k] + RemoveWalk(arr[k..], id, false);
    } else {
      assert arr' == arr[..k];
      assert arr'[..|arr'|] + RemoveWalk(arr'[|arr'|..], id, false) == arr[..k] + RemoveWalk(arr[k..], id, false);
    }
  }

  /** One iteration that walks the children of the visited node at `k`. */
  lemma DescendStep(arr0: seq<Folder>, arr: seq<Folder>, k: nat, id: string)
    requires k < |arr| && arr[k].id != id && Walked(arr0, arr, k, id)
    ensures Walked(arr0, arr[k := arr[k].(children := RemoveWalk(arr[k].children, id, false))], k + 1, id)
  {
    assert arr[k..][0] == arr[k] && arr[k..][1..] == arr[k + 1..];
    var arr' := arr[k := arr[k].(children := RemoveWalk(arr[k].children, id, false))];
    assert arr'[..k + 1] == arr[..k] + [arr'[k]];
    assert arr'[k + 1..] == arr[k + 1..];
  }

  /** Past the end of the array, moving the cursor changes nothing. */
  lemma WalkedPast(arr0: seq<Folder>, arr: seq<Folder>, k: nat, id: string)
    requires |arr| <= k && Walked(arr0, arr, k, id)
    ensures Walked(arr0, arr, k + 1, id)
  {
  }

  /** Once the cursor is past the end, the array is the walk of the whole. */
  lemma WalkedDone(arr0: seq<Folder>, arr: seq<Folder>, k: nat, id: string)
    requires |arr| <= k && Walked(arr0, arr, k, id)
    ensures arr == RemoveWalk(arr0, id, false)
  {
    assert arr[..|arr|] == arr && arr[|arr|..] == [];
  }

  /** The `findAndRemove` closure. `forEach` visits the indices present when
      it starts and skips those no longer present; a matching node is spliced
      out (the `return` does not stop the iteration), any other node with
      children has them walked in place. */
  method FindAndRemove(arr0: seq<Folder>, id: string) returns (arr: seq<Folder>)
    ensures arr == RemoveForest(arr0, id)
    decreases arr0
  {
    arr := arr0;
    var len := |arr|;
    var k := 0;
    assert arr[..0] + arr[0..] == arr0;
    while k < len
      invariant 0 <= k <= len && |arr| <= len
      invariant Walked(arr0, arr, k, id)
      invariant forall j | k <= j < |arr| :: arr[j] in arr0
    {
      if k < |arr| {
        var i := arr[k];
        if i.id == id {
          SpliceStep(arr0, arr, k, id);
          arr := arr[..k] + arr[k + 1..];
        } else {
          DescendStep(arr0, arr, k, id);
          if |i.children| > 0 {
            var c := FindAndRemove(i.children, id);
            arr := arr[k := i.(children := c)];
          } else {
            assert i.(children := RemoveWalk(i.children, id, false)) == i;
            assert arr[k := i] == arr;
          }
        }
      } else {
        WalkedPast(arr0, arr, k, id);
      }
      k := k + 1;
    }
    WalkedDone(arr0, arr, k, id);
  }
}
