/** The `findAndUpdate` walk shared by `updateFolderName` and
    `updateFolderLanguage`: one field is overwritten on every node whose id
    matches, at any depth, and nothing else changes. */
module FolderEdit {
  import opened Wrappers
  import opened FolderTree

  /** Which field the walk writes: `i.name = payload` or
      `i.defaultLanguage = payload`. */
  datatype Edit = SetName(name: string) | SetLanguage(language: string)

  function Apply(f: Folder, e: Edit): Folder
  {
    match e
    case SetName(n) => f.(name := n)
    case SetLanguage(l) => f.(defaultLanguage := l)
  }

  /** The node after the walk: its own field written when its id matches,
      then its children walked. */
  function UpdateNode(f: Folder, id: string, e: Edit): (r: Folder)
    ensures r.id == f.id && |r.children| == |f.children|
  {
    var g := if f.id == id then Apply(f, e) else f;
    g.(children := UpdateForest(f.children, id, e))
  }

  function UpdateForest(fs: seq<Folder>, id: string, e: Edit): (r: seq<Folder>)
    ensures |r| == |fs|
  {
    if fs == [] then [] else [UpdateNode(fs[0], id, e)] + UpdateForest(fs[1..], id, e)
  }

  /** The record of one node without its children: what a pre-order listing
      of the forest shows of it, `arity` being its number of children. */
  datatype Header = Header(id: string, name: string, open: bool, defaultLanguage: string, arity: nat)

  function HeaderOf(f: Folder): Header
  {
    Header(f.id, f.name, f.open, f.defaultLanguage, |f.children|)
  }

  /** Pre-order listing of the node records of a forest. */
  function Headers(fs: seq<Folder>): seq<Header>
  {
    if fs == [] then [] else [HeaderOf(fs[0])] + Headers(fs[0].children) + Headers(fs[1..])
  }

  function EditHeader(h: Header, id: string, e: Edit): Header
  {
    if h.id != id then h
    else match e
      case SetName(n) => h.(name := n)
      case SetLanguage(l) => h.(defaultLanguage := l)
  }

  /** Every record of a listing edited independently. */
  function EditHeaders(hs: seq<Header>, id: string, e: Edit): (r: seq<Header>)
  {
    seq(|hs|, k requires 0 <= k < |hs| => EditHeader(hs[k], id, e))
  }

  /** The edited field cleared: what the walk must leave unchanged. */
  function Blank(f: Folder, e: Edit): Folder
  {
    var g := match e
      case SetName(_) => f.(name := "")
      case SetLanguage(_) => f.(defaultLanguage := "");
    g.(children := BlankForest(f.children, e))
  }

  function BlankForest(fs: seq<Folder>, e: Edit): seq<Folder>
  {
    if fs == [] then [] else [Blank(fs[0], e)] + BlankForest(fs[1..], e)
  }

  lemma EditHeadersAppend(a: seq<Header>, b: seq<Header>, id: string, e: Edit)
    ensures EditHeaders(a + b, id, e) == EditHeaders(a, id, e) + EditHeaders(b, id, e)
  {
    var l, r := EditHeaders(a + b, id, e), EditHeaders(a, id, e) + EditHeaders(b, id, e);
    assert |l| == |r|;
    forall k | 0 <= k < |l| ensures l[k] == r[k] {
      if k < |a| {
        assert (a + b)[k] == a[k];
      } else {
        assert (a + b)[k] == b[k - |a|];
      }
    }
  }

  /** In the pre-order listing, the walk writes the field on exactly the nodes
      whose id matches and leaves every other record as it was. */
  lemma {:induction false} UpdateHeaders(fs: seq<Folder>, id: string, e: Edit)
    ensures Headers(UpdateForest(fs, id, e)) == EditHeaders(Headers(fs), id, e)
  {
    if fs != [] {
      var f := fs[0];
      var r := UpdateForest(fs, id, e);
      assert r[0] == UpdateNode(f, id, e) && r[1..] == UpdateForest(fs[1..], id, e);
      assert Headers(r) == [HeaderOf(r[0])] + Headers(r[0].children) + Headers(r[1..]);
      UpdateHeaders(f.children, id, e);
      UpdateHeaders(fs[1..], id, e);
      assert HeaderOf(r[0]) == EditHeader(HeaderOf(f), id, e);
      assert [HeaderOf(r[0])] == EditHeaders([HeaderOf(f)], id, e);
      EditHeadersAppend([HeaderOf(f)], Headers(f.children), id, e);
      EditHeadersAppend([HeaderOf(f)] + Headers(f.children), Headers(fs[1..]), id, e);
    }
  }

  /** Tree shape, order, ids, `open` and the field not edited are unchanged. */
  lemma {:induction false} UpdateKeepsRest(fs: seq<Folder>, id: string, e: Edit)
    ensures BlankForest(UpdateForest(fs, id, e), e) == BlankForest(fs, e)
  {
    if fs != [] {
      var r := UpdateForest(fs, id, e);
      assert r[0] == UpdateNode(fs[0], id, e) && r[1..] == UpdateForest(fs[1..], id, e);
      UpdateKeepsRest(fs[0].children, id, e);
      UpdateKeepsRest(fs[1..], id, e);
    }
  }

  /** The pre-order id list is unchanged, so unique ids stay unique. */
  lemma {:induction false} UpdateKeepsIds(fs: seq<Folder>, id: string, e: Edit)
    ensures ForestIds(UpdateForest(fs, id, e)) == ForestIds(fs)
  {
    if fs != [] {
      var r := UpdateForest(fs, id, e);
      assert r[0] == UpdateNode(fs[0], id, e) && r[1..] == UpdateForest(fs[1..], id, e);
      UpdateKeepsIds(fs[0].children, id, e);
      UpdateKeepsIds(fs[1..], id, e);
    }
  }

  /** Looking a node up after the walk finds the walked copy of the node found
      before it. */
  lemma {:induction false} FindAfterUpdate(fs: seq<Folder>, id: string, e: Edit, x: string)
    ensures Find(UpdateForest(fs, id, e), x) ==
      match Find(fs, x)
      case Some(n) => Some(UpdateNode(n, id, e))
      case None => None
  {
    if fs != [] {
      var r := UpdateForest(fs, id, e);
      assert r[0] == UpdateNode(fs[0], id, e) && r[1..] == UpdateForest(fs[1..], id, e);
      FindAfterUpdate(fs[0].children, id, e, x);
      FindAfterUpdate(fs[1..], id, e, x);
    }
  }

  /** One step of the walk: writing the walked copy of the next node into
      the array extends the walked prefix by one. */
  lemma UpdateStep(arr: seq<Folder>, out: seq<Folder>, k: nat, id: string, e: Edit)
    requires k < |arr| == |out|
    requires out[..k] + UpdateForest(arr[k..], id, e) == UpdateForest(arr, id, e)
    ensures out[k := UpdateNode(arr[k], id, e)][..k + 1] + UpdateForest(arr[k + 1..], id, e) == UpdateForest(arr, id, e)
  {
    assert arr[k..][0] == arr[k] && arr[k..][1..] == arr[k + 1..];
    assert out[k := UpdateNode(arr[k], id, e)][..k + 1] == out[..k] + [UpdateNode(arr[k], id, e)];
  }

  /** The `findAndUpdate` closure: walks `arr` with `forEach`, writes the field
      of each matching node in place and recurses into non-empty `children`. */
  method FindAndUpdate(arr: seq<Folder>, id: string, e: Edit) returns (out: seq<Folder>)
    ensures out == UpdateForest(arr, id, e)
    decreases arr
  {
    out := arr;
    var k := 0;
    while k < |out|
      invariant |out| == |arr| && 0 <= k <= |out|
      invariant forall j | k <= j < |out| :: out[j] == arr[j]
      invariant out[..k] + UpdateForest(arr[k..], id, e) == UpdateForest(arr, id, e)
    {
      var i := out[k];
      var node := i;
      if node.id == id {
        node := Apply(node, e);
      }
      if |i.children| > 0 {
        var c := FindAndUpdate(i.children, id, e);
        node := node.(children := c);
      }
      assert node == UpdateNode(i, id, e);
      UpdateStep(arr, out, k, id, e);
      out := out[k := node];
      k := k + 1;
    }
    assert out[..k] == out;
  }
}
