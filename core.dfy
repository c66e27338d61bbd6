/**
 * The inner splitview that the panel-level component drives.  Only what the
 * component relies on is modelled: an ordered list of view items, each a
 * panel with the size the splitview stores for it and a visibility flag.
 * How sizes are computed is not modelled; wherever the splitview would
 * re-derive them, the new sizes are an input (`resized`).
 */
module Core {

  datatype Option<T> = None | Some(value: T)

  datatype Orientation = Horizontal | Vertical

  datatype LayoutPriority = Low | Normal | High

  /** Opaque per-panel parameters (`params` / `props`). */
  type Params = map<string, string>

  /** A panel object: its identity, what `init` gave it, and its active flag. */
  datatype Panel = Panel(
    id: string,
    component: string,
    params: Params,
    orientation: Orientation,
    minimumSize: Option<int>,
    maximumSize: Option<int>,
    snap: Option<bool>,
    priority: Option<LayoutPriority>,
    active: bool)

  /** One entry of the splitview's ordered view list. */
  datatype Item = Item(view: Panel, size: int, visible: bool)

  datatype Splitview = Splitview(
    orientation: Orientation,
    size: int,
    orthogonalSize: int,
    views: seq<Item>)

  function Ids(items: seq<Item>): (ids: seq<string>)
    ensures |ids| == |items|
    ensures forall i :: 0 <= i < |items| ==> ids[i] == items[i].view.id
  {
    seq(|items|, i requires 0 <= i < |items| => items[i].view.id)
  }

  /** No id occurs twice in the list. */
  ghost predicate NoDuplicates(ids: seq<string>)
  {
    forall i, j :: 0 <= i < |ids| && 0 <= j < |ids| && i != j ==> ids[i] != ids[j]
  }

  /** No two view items carry panels with the same id. */
  ghost predicate DistinctIds(items: seq<Item>)
  {
    NoDuplicates(Ids(items))
  }

  /** At most one panel in the list has its active flag set. */
  ghost predicate AtMostOneActive(items: seq<Item>)
  {
    forall i, j :: 0 <= i < |items| && 0 <= j < |items| && i != j ==>
      !(items[i].view.active && items[j].view.active)
  }

  /** `getViewSize(i)`: the size stored for the view at position i. */
  function GetViewSize(sv: Splitview, i: nat): int
    requires i < |sv.views|
  {
    sv.views[i].size
  }

  /** `findIndex` by panel id: the first position holding `id`, or -1. */
  function IndexOf(items: seq<Item>, id: string): (r: int)
    ensures -1 <= r < |items|
    ensures r == -1 <==> forall j :: 0 <= j < |items| ==> items[j].view.id != id
    ensures 0 <= r ==> items[r].view.id == id
    ensures 0 <= r ==> forall j :: 0 <= j < r ==> items[j].view.id != id
  {
    if |items| == 0 then -1
    else if items[0].view.id == id then 0
    else
      var k := IndexOf(items[1..], id);
      if k == -1 then -1 else k + 1
  }

  /** `find` by panel id: the panel at the first position holding `id`, if any. */
  function Find(items: seq<Item>, id: string): (r: Option<Panel>)
    ensures r.None? <==> id !in Ids(items)
    ensures r.Some? ==> r.value.id == id && r.value == items[IndexOf(items, id)].view
    ensures r.Some? ==>
      exists k :: 0 <= k < |items| && items[k].view == r.value && forall j :: 0 <= j < k ==> items[j].view.id != id
  {
    var k := IndexOf(items, id);
    if k < 0 then None else Some(items[k].view)
  }

  function WithActive(item: Item, flag: bool): Item
  {
    item.(view := item.view.(active := flag))
  }

  /**
   * The view list after `setActive(view)`: the panel with `id` is flagged
   * active and every other panel inactive; nothing else changes.
   */
  function Activate(items: seq<Item>, id: string): (r: seq<Item>)
    ensures Ids(r) == Ids(items)
    ensures forall i :: 0 <= i < |items| ==>
      r[i].size == items[i].size && r[i].visible == items[i].visible &&
      r[i].view == items[i].view.(active := r[i].view.active) &&
      (r[i].view.active <==> items[i].view.id == id)
  {
    seq(|items|, i requires 0 <= i < |items| => WithActive(items[i], items[i].view.id == id))
  }

  /** The new sizes the splitview assigns; panels, order and visibility stay. */
  function Resize(items: seq<Item>, sizes: seq<int>): (r: seq<Item>)
    requires |sizes| == |items|
    ensures |r| == |items|
    ensures forall i :: 0 <= i < |items| ==>
      r[i].view == items[i].view && r[i].visible == items[i].visible && r[i].size == sizes[i]
  {
    seq(|items|, i requires 0 <= i < |items| => items[i].(size := sizes[i]))
  }

  /** Where `addView(view, size, index)` inserts: at `index`, or at the end. */
  function InsertPosition(count: nat, index: Option<int>): (r: Option<nat>)
    ensures index.None? ==> r == Some(count)
    ensures index.Some? ==> (r.Some? <==> 0 <= index.value <= count)
    ensures index.Some? && r.Some? ==> r.value == index.value
    ensures r.Some? ==> r.value <= count
  {
    match index
    case None => Some(count)
    case Some(i) => if 0 <= i <= count then Some(i) else None
  }

  /** `addView`: insert a visible item for `view`; rejected when the index is out of range. */
  function AddView(sv: Splitview, view: Panel, index: Option<int>, resized: seq<int>): (r: Option<Splitview>)
    requires |resized| == |sv.views| + 1
    ensures r.Some? <==> InsertPosition(|sv.views|, index).Some?
    ensures r.Some? ==>
      var k := InsertPosition(|sv.views|, index).value;
      && r.value.orientation == sv.orientation
      && r.value.size == sv.size
      && r.value.orthogonalSize == sv.orthogonalSize
      && Ids(r.value.views) == Ids(sv.views)[..k] + [view.id] + Ids(sv.views)[k..]
      && r.value.views[k] == Item(view, resized[k], true)
      && (forall i :: 0 <= i < k ==> r.value.views[i] == sv.views[i].(size := resized[i]))
      && (forall i :: k < i <= |sv.views| ==> r.value.views[i] == sv.views[i - 1].(size := resized[i]))
  {
    match InsertPosition(|sv.views|, index)
    case None => None
    case Some(k) =>
      var items := sv.views[..k] + [Item(view, resized[k], true)] + sv.views[k..];
      var r := sv.(views := Resize(items, resized));
      assert Ids(r.views) == Ids(sv.views)[..k] + [view.id] + Ids(sv.views)[k..];
      Some(r)
  }

  /** The list without position k. */
  function RemoveAt(items: seq<Item>, k: nat): (r: seq<Item>)
    requires k < |items|
    ensures |r| == |items| - 1
    ensures Ids(r) == Ids(items)[..k] + Ids(items)[k + 1..]
    ensures forall i :: 0 <= i < k ==> r[i] == items[i]
    ensures forall i :: k <= i < |r| ==> r[i] == items[i + 1]
  {
    var r := items[..k] + items[k + 1..];
    assert Ids(r) == Ids(items)[..k] + Ids(items)[k + 1..];
    r
  }

  /** `removeView(index)`: rejected unless the index addresses a view. */
  function RemoveView(sv: Splitview, index: int, resized: seq<int>): (r: Option<Splitview>)
    requires 0 <= index < |sv.views| ==> |resized| == |sv.views| - 1
    ensures r.Some? <==> 0 <= index < |sv.views|
    ensures r.Some? ==>
      && r.value.orientation == sv.orientation
      && r.value.size == sv.size
      && r.value.orthogonalSize == sv.orthogonalSize
      && Ids(r.value.views) == Ids(sv.views)[..index] + Ids(sv.views)[index + 1..]
      && (forall i :: 0 <= i < |r.value.views| ==>
            r.value.views[i] == RemoveAt(sv.views, index)[i].(size := resized[i]))
  {
    if 0 <= index < |sv.views| then
      Some(sv.(views := Resize(RemoveAt(sv.views, index), resized)))
    else
      None
  }

  /**
   * Where the item at position i of the moved list comes from, when the
   * item at `from` is taken out and put back in at `to`.
   */
  function MoveSource(from: nat, to: nat, i: nat): nat
  {
    if i == to then from
    else
      var j := if i < to then i else i - 1;
      if j < from then j else j + 1
  }

  /** `moveView(from, to)`: take the item at `from` out and reinsert it at `to`, size and all. */
  function Move(items: seq<Item>, from: nat, to: nat): (r: seq<Item>)
    requires from < |items| && to < |items|
    ensures |r| == |items|
    ensures r[to] == items[from]
    ensures multiset(r) == multiset(items)
  {
    var rest := RemoveAt(items, from);
    var r := rest[..to] + [items[from]] + rest[to..];
    assert items == items[..from] + [items[from]] + items[from + 1..];
    assert rest == items[..from] + items[from + 1..];
    assert rest == rest[..to] + rest[to..];
    assert multiset(r) == multiset(rest) + multiset([items[from]]);
    r
  }

  /** Position i of the moved list holds the item from `MoveSource(from, to, i)`. */
  lemma MoveAt(items: seq<Item>, from: nat, to: nat, i: nat)
    requires from < |items| && to < |items| && i < |items|
    ensures MoveSource(from, to, i) < |items|
    ensures Move(items, from, to)[i] == items[MoveSource(from, to, i)]
  {
    var rest := RemoveAt(items, from);
    assert Move(items, from, to) == rest[..to] + [items[from]] + rest[to..];
    if i < to {
      assert Move(items, from, to)[i] == rest[i];
    } else if i > to {
      assert Move(items, from, to)[i] == rest[i - 1];
    }
  }

  function MoveView(sv: Splitview, from: int, to: int): (r: Option<Splitview>)
    ensures r.Some? <==> 0 <= from < |sv.views| && 0 <= to < |sv.views|
    ensures r.Some? ==> r.value == sv.(views := Move(sv.views, from, to))
  {
    if 0 <= from < |sv.views| && 0 <= to < |sv.views| then
      Some(sv.(views := Move(sv.views, from, to)))
    else
      None
  }

  /** `setViewVisible(index, visible)`: rejected unless the index addresses a view. */
  function SetViewVisible(sv: Splitview, index: int, visible: bool, resized: seq<int>): (r: Option<Splitview>)
    requires |resized| == |sv.views|
    ensures r.Some? <==> 0 <= index < |sv.views|
    ensures r.Some? ==>
      && r.value.orientation == sv.orientation
      && r.value.size == sv.size
      && r.value.orthogonalSize == sv.orthogonalSize
      && |r.value.views| == |sv.views|
      && r.value.views[index] == Item(sv.views[index].view, resized[index], visible)
      && (forall i :: 0 <= i < |sv.views| && i != index ==>
            r.value.views[i] == sv.views[i].(size := resized[i]))
  {
    if 0 <= index < |sv.views| then
      Some(sv.(views := Resize(sv.views[index := sv.views[index].(visible := visible)], resized)))
    else
      None
  }

  /** `layout(size, orthogonalSize)`: record both lengths; the views get their new sizes. */
  function Layout(sv: Splitview, size: int, orthogonalSize: int, resized: seq<int>): (r: Splitview)
    requires |resized| == |sv.views|
    ensures r.orientation == sv.orientation
    ensures r.size == size && r.orthogonalSize == orthogonalSize
    ensures Ids(r.views) == Ids(sv.views)
    ensures forall i :: 0 <= i < |sv.views| ==> r.views[i] == sv.views[i].(size := resized[i])
  {
    sv.(size := size, orthogonalSize := orthogonalSize, views := Resize(sv.views, resized))
  }

  /** `dispose()`: the splitview lets go of all its views. */
  function Dispose(sv: Splitview): (r: Splitview)
    ensures r.views == []
    ensures r.orientation == sv.orientation && r.size == sv.size && r.orthogonalSize == sv.orthogonalSize
  {
    sv.(views := [])
  }

  // ---------------------------------------------------------------------
  // What the list operations keep

  /** Activating one id leaves at most one panel active, and exactly one when the id is present. */
  lemma ActivateSingle(items: seq<Item>, id: string)
    requires DistinctIds(items)
    ensures DistinctIds(Activate(items, id))
    ensures AtMostOneActive(Activate(items, id))
    ensures id in Ids(items) ==> exists i :: 0 <= i < |items| && Activate(items, id)[i].view.active
  {
    var r := Activate(items, id);
    forall i, j | 0 <= i < |r| && 0 <= j < |r| && i != j
      ensures r[i].view.id != r[j].view.id
    {
      assert r[i].view.id == Ids(r)[i] == Ids(items)[i] == items[i].view.id;
      assert r[j].view.id == Ids(r)[j] == Ids(items)[j] == items[j].view.id;
    }
  }

  /** Inserting a panel whose id is new keeps ids distinct; an inactive one keeps the single-active rule. */
  lemma {:induction false} AddViewKeeps(sv: Splitview, view: Panel, index: Option<int>, resized: seq<int>)
    requires |resized| == |sv.views| + 1
    requires DistinctIds(sv.views) && view.id !in Ids(sv.views)
    requires AddView(sv, view, index, resized).Some?
    ensures DistinctIds(AddView(sv, view, index, resized).value.views)
    ensures !view.active && AtMostOneActive(sv.views) ==>
      AtMostOneActive(AddView(sv, view, index, resized).value.views)
  {
    var k := InsertPosition(|sv.views|, index).value;
    var r := AddView(sv, view, index, resized).value.views;
    forall i | 0 <= i < |r| && i != k
      ensures r[i].view == sv.views[if i < k then i else i - 1].view
    {
    }
    forall i, j | 0 <= i < |r| && 0 <= j < |r| && i != j
      ensures r[i].view.id != r[j].view.id
    {
      if i == k {
        assert Ids(sv.views)[if j < k then j else j - 1] == r[j].view.id;
      } else if j == k {
        assert Ids(sv.views)[if i < k then i else i - 1] == r[i].view.id;
      } else {
        assert r[i].view.id == sv.views[if i < k then i else i - 1].view.id;
      }
    }
  }

  /** Removing a position keeps ids distinct and the single-active rule, and its id is gone. */
  lemma {:induction false} RemoveAtKeeps(items: seq<Item>, k: nat)
    requires k < |items|
    requires DistinctIds(items)
    ensures DistinctIds(RemoveAt(items, k))
    ensures AtMostOneActive(items) ==> AtMostOneActive(RemoveAt(items, k))
    ensures items[k].view.id !in Ids(RemoveAt(items, k))
    ensures forall x :: x in Ids(RemoveAt(items, k)) ==> x in Ids(items)
  {
    var r := RemoveAt(items, k);
    forall i | 0 <= i < |r|
      ensures r[i] == items[if i < k then i else i + 1]
    {
    }
    forall i | 0 <= i < |r|
      ensures Ids(r)[i] != items[k].view.id
    {
      assert Ids(r)[i] == items[if i < k then i else i + 1].view.id;
    }
    forall x | x in Ids(r)
      ensures x in Ids(items)
    {
      var i :| 0 <= i < |r| && Ids(r)[i] == x;
      assert Ids(items)[if i < k then i else i + 1] == x;
    }
  }

  /** `MoveSource` is one-to-one, so a move is a rearrangement of the same items. */
  lemma MoveSourceInjective(from: nat, to: nat, n: nat, i: nat, j: nat)
    requires from < n && to < n && i < n && j < n && i != j
    ensures MoveSource(from, to, i) != MoveSource(from, to, j)
  {
  }

  /** Moving an item keeps ids distinct and the single-active rule. */
  lemma {:induction false} MoveKeeps(items: seq<Item>, from: nat, to: nat)
    requires from < |items| && to < |items|
    ensures DistinctIds(items) ==> DistinctIds(Move(items, from, to))
    ensures AtMostOneActive(items) ==> AtMostOneActive(Move(items, from, to))
  {
    var r := Move(items, from, to);
    forall i | 0 <= i < |r|
      ensures MoveSource(from, to, i) < |items| && r[i].view == items[MoveSource(from, to, i)].view
    {
      MoveAt(items, from, to, i);
    }
    forall i, j | 0 <= i < |r| && 0 <= j < |r| && i != j
      ensures MoveSource(from, to, i) != MoveSource(from, to, j)
    {
      MoveSourceInjective(from, to, |items|, i, j);
    }
  }

  /** A move keeps the same set of ids. */
  lemma {:induction false} MoveKeepsIds(items: seq<Item>, from: nat, to: nat)
    requires from < |items| && to < |items|
    ensures forall x :: x in Ids(Move(items, from, to)) <==> x in Ids(items)
  {
    var r := Move(items, from, to);
    forall x | x in Ids(items)
      ensures x in Ids(r)
    {
      var s :| 0 <= s < |items| && Ids(items)[s] == x;
      assert items[s] in multiset(r);
      var i :| 0 <= i < |r| && r[i] == items[s];
      assert Ids(r)[i] == x;
    }
    forall x | x in Ids(r)
      ensures x in Ids(items)
    {
      var i :| 0 <= i < |r| && Ids(r)[i] == x;
      MoveAt(items, from, to, i);
      assert Ids(items)[MoveSource(from, to, i)] == x;
    }
  }
}
