/** The folder forest kept in the `folders` document and in the store's `list`,
    and the read-only walks over it. */
module FolderTree {
  import opened Wrappers

  /** One folder node. `addFolder` stores nodes without a `children` key; the
      model reads a missing key as the empty sequence, which every walk treats
      the same way (`i.children && i.children.length` is false for both). */
  datatype Folder = Folder(id: string, name: string, open: bool, defaultLanguage: string, children: seq<Folder>)

  /** Ids of `f` and of all its descendants in pre-order, `f.id` first. */
  function SubtreeIds(f: Folder): seq<string>
  {
    [f.id] + ForestIds(f.children)
  }

  /** Ids of every node of the forest in pre-order. */
  function ForestIds(fs: seq<Folder>): seq<string>
  {
    if fs == [] then [] else SubtreeIds(fs[0]) + ForestIds(fs[1..])
  }

  ghost predicate NoDup(s: seq<string>)
  {
    forall i, j | 0 <= i < j < |s| :: s[i] != s[j]
  }

  /** Folder ids are unique across the whole forest. */
  ghost predicate UniqueIds(fs: seq<Folder>)
  {
    NoDup(ForestIds(fs))
  }

  /** `g` is a node of the forest `fs`, at any depth (reachability through
      `children`, defined independently of the id lists). */
  ghost predicate InForest(g: Folder, fs: seq<Folder>)
  {
    fs != [] && (fs[0] == g || InForest(g, fs[0].children) || InForest(g, fs[1..]))
  }

  /** First node with the given id in pre-order; with unique ids, the node
      `findFolderById` selects. */
  function Find(fs: seq<Folder>, id: string): (r: Option<Folder>)
    ensures r.None? <==> id !in ForestIds(fs)
    ensures r.Some? ==> r.value.id == id && InForest(r.value, fs)
  {
    if fs == [] then None
    else if fs[0].id == id then Some(fs[0])
    else match Find(fs[0].children, id)
      case Some(n) => Some(n)
      case None => Find(fs[1..], id)
  }

  /** The id list holds exactly the ids of the nodes reachable in the forest. */
  lemma {:induction false} ForestIdsExact(fs: seq<Folder>, x: string)
    ensures x in ForestIds(fs) <==> exists g :: InForest(g, fs) && g.id == x
  {
    if fs != [] {
      var f, rest := fs[0], fs[1..];
      assert ForestIds(fs) == [f.id] + ForestIds(f.children) + ForestIds(rest);
      ForestIdsExact(f.children, x);
      ForestIdsExact(rest, x);
      if x in ForestIds(fs) {
        if x == f.id {
          assert InForest(f, fs);
        } else if x in ForestIds(f.children) {
          var g :| InForest(g, f.children) && g.id == x;
          assert InForest(g, fs);
        } else {
          var g :| InForest(g, rest) && g.id == x;
          assert InForest(g, fs);
        }
      }
    }
  }

  /** Descendant completeness: the subtree ids of `f` are `f.id` and exactly
      the ids of the nodes below `f`. */
  lemma SubtreeIdsExact(f: Folder, x: string)
    ensures x in SubtreeIds(f) <==> x == f.id || exists g :: InForest(g, f.children) && g.id == x
  {
    ForestIdsExact(f.children, x);
  }

  lemma {:induction false} ForestIdsAppend(a: seq<Folder>, b: seq<Folder>)
    ensures ForestIds(a + b) == ForestIds(a) + ForestIds(b)
  {
    if a != [] {
      assert (a + b)[0] == a[0];
      assert (a + b)[1..] == a[1..] + b;
      ForestIdsAppend(a[1..], b);
    } else {
      assert a + b == b;
    }
  }

  lemma NoDupAppend(a: seq<string>, b: seq<string>)
    ensures NoDup(a + b) <==> NoDup(a) && NoDup(b) && forall x | x in a :: x !in b
  {
    var s := a + b;
    if NoDup(s) {
      forall i, j | 0 <= i < j < |a| ensures a[i] != a[j] {
        assert s[i] == a[i] && s[j] == a[j];
      }
      forall i, j | 0 <= i < j < |b| ensures b[i] != b[j] {
        assert s[|a| + i] == b[i] && s[|a| + j] == b[j];
      }
      forall i, j | 0 <= i < |a| && 0 <= j < |b| ensures a[i] != b[j] {
        assert s[i] == a[i] && s[|a| + j] == b[j];
      }
    }
    if NoDup(a) && NoDup(b) && (forall x | x in a :: x !in b) {
      forall i, j | 0 <= i < j < |s| ensures s[i] != s[j] {
        if j < |a| {
          assert s[i] == a[i] && s[j] == a[j];
        } else if i >= |a| {
          assert s[i] == b[i - |a|] && s[j] == b[j - |a|];
        } else {
          assert s[i] == a[i] && s[j] == b[j - |a|];
          assert a[i] in a && b[j - |a|] in b;
        }
      }
    }
  }

  /** The recursive `getIds` of `setSelectedIds`: pushes the pre-order ids of
      `arr` onto the list it closes over, here threaded as `ids0`/`ids`. */
  method GetIds(arr: seq<Folder>, ids0: seq<string>) returns (ids: seq<string>)
    ensures ids == ids0 + ForestIds(arr)
    decreases arr
  {
    ids := ids0;
    var k := 0;
    while k < |arr|
      invariant 0 <= k <= |arr|
      invariant ids + ForestIds(arr[k..]) == ids0 + ForestIds(arr)
    {
      var i := arr[k];
      assert arr[k..][0] == i && arr[k..][1..] == arr[k + 1..];
      assert ForestIds(arr[k..]) == [i.id] + ForestIds(i.children) + ForestIds(arr[k + 1..]);
      ghost var before := ids;
      ids := ids + [i.id];
      if |i.children| > 0 {
        ids := GetIds(i.children, ids);
      }
      assert ids == before + [i.id] + ForestIds(i.children);
      k := k + 1;
    }
  }
}
