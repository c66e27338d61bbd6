/**
 * The JSON document of a panel splitview (`SerializedSplitview` and
 * `SerializedSplitviewPanel`), how the component writes one from its state
 * and what rebuilding from one yields.
 */
module Serialization {
  import opened Core

  /** What a panel's own `toJSON()` contributes: its id, component name and props. */
  datatype PanelData = PanelData(id: string, component: string, props: Params)

  /** One view of the document; `snap` is optional in documents written elsewhere. */
  datatype SerializedPanel = SerializedPanel(
    snap: Option<bool>,
    priority: Option<LayoutPriority>,
    minimumSize: Option<int>,
    maximumSize: Option<int>,
    data: PanelData,
    size: int)

  datatype SerializedSplitview = SerializedSplitview(
    orientation: Orientation,
    size: int,
    activeView: Option<string>,
    views: seq<SerializedPanel>)

  function PanelToJSON(p: Panel): PanelData
  {
    PanelData(p.id, p.component, p.params)
  }

  /** The record `toJSON` writes for the view at position i. */
  function SerializeItem(sv: Splitview, i: nat): SerializedPanel
    requires i < |sv.views|
  {
    var view := sv.views[i].view;
    SerializedPanel(
      Some(view.snap == Some(true)),
      view.priority,
      view.minimumSize,
      view.maximumSize,
      PanelToJSON(view),
      GetViewSize(sv, i))
  }

  /** `toJSON`: one record per view, in splitview order, and the active panel's id. */
  function Serialize(sv: Splitview, activePanel: Option<string>): (doc: SerializedSplitview)
    ensures doc.orientation == sv.orientation && doc.size == sv.size
    ensures doc.activeView == activePanel
    ensures |doc.views| == |sv.views|
    ensures forall i :: 0 <= i < |sv.views| ==>
      && doc.views[i].data.id == sv.views[i].view.id
      && doc.views[i].size == GetViewSize(sv, i)
      && doc.views[i].snap.Some?
      && (doc.views[i].snap.value <==> sv.views[i].view.snap == Some(true))
      && doc.views[i].minimumSize == sv.views[i].view.minimumSize
      && doc.views[i].maximumSize == sv.views[i].view.maximumSize
      && doc.views[i].priority == sv.views[i].view.priority
  {
    SerializedSplitview(
      sv.orientation,
      sv.size,
      activePanel,
      seq(|sv.views|, i requires 0 <= i < |sv.views| => SerializeItem(sv, i)))
  }

  function DocIds(doc: SerializedSplitview): (ids: seq<string>)
    ensures |ids| == |doc.views|
    ensures forall i :: 0 <= i < |doc.views| ==> ids[i] == doc.views[i].data.id
  {
    seq(|doc.views|, i requires 0 <= i < |doc.views| => doc.views[i].data.id)
  }

  /**
   * Entry i of the document is refused: its id is registered already,
   * either before the import or by an earlier entry of the same document.
   */
  predicate Clashes(registered: set<string>, ids: seq<string>, i: nat)
    requires i < |ids|
  {
    ids[i] in registered || ids[i] in ids[..i]
  }

  /** The first entry at or after `from` that `fromJSON` refuses, if any. */
  function FirstClash(registered: set<string>, ids: seq<string>, from: nat): (r: Option<nat>)
    requires from <= |ids|
    decreases |ids| - from
    ensures r.None? <==> forall j :: from <= j < |ids| ==> !Clashes(registered, ids, j)
    ensures r.Some? ==> from <= r.value < |ids| && Clashes(registered, ids, r.value)
    ensures r.Some? ==> forall j :: from <= j < r.value ==> !Clashes(registered, ids, j)
  {
    if from == |ids| then None
    else if Clashes(registered, ids, from) then Some(from)
    else FirstClash(registered, ids, from + 1)
  }

  /** The first refused entry is the one that clashes after a run of accepted ones. */
  lemma FirstClashAt(registered: set<string>, ids: seq<string>, i: nat)
    requires i < |ids| && Clashes(registered, ids, i)
    requires forall j :: 0 <= j < i ==> !Clashes(registered, ids, j)
    ensures FirstClash(registered, ids, 0) == Some(i)
  {
  }

  /** The first i entries are accepted: none registered, no two alike. */
  ghost predicate AcceptedUpTo(registered: set<string>, ids: seq<string>, i: nat)
    requires i <= |ids|
  {
    && (forall j :: 0 <= j < i ==> ids[j] !in registered)
    && (forall l, j :: 0 <= l < j < i ==> ids[l] != ids[j])
  }

  /** Accepted entries are those that do not clash. */
  lemma {:induction false} AcceptedUpToNoClash(registered: set<string>, ids: seq<string>, i: nat)
    requires i <= |ids| && AcceptedUpTo(registered, ids, i)
    ensures forall j :: 0 <= j < i ==> !Clashes(registered, ids, j)
  {
    forall j | 0 <= j < i
      ensures !Clashes(registered, ids, j)
    {
      assert forall l :: 0 <= l < j ==> ids[..j][l] == ids[l];
    }
  }

  /**
   * A document is accepted exactly when its ids are pairwise distinct and
   * none of them is registered already.
   */
  lemma {:induction false} AcceptedIff(registered: set<string>, ids: seq<string>)
    ensures FirstClash(registered, ids, 0).None? <==>
      NoDuplicates(ids) && forall i :: 0 <= i < |ids| ==> ids[i] !in registered
  {
    if FirstClash(registered, ids, 0).None? {
      forall i | 0 <= i < |ids|
        ensures ids[i] !in registered
      {
        assert !Clashes(registered, ids, i);
      }
      forall i, j | 0 <= i < |ids| && 0 <= j < |ids| && i != j
        ensures ids[i] != ids[j]
      {
        if i < j {
          assert !Clashes(registered, ids, j);
          assert ids[i] == ids[..j][i];
        } else {
          assert !Clashes(registered, ids, i);
          assert ids[j] == ids[..i][j];
        }
      }
    } else {
      var k := FirstClash(registered, ids, 0).value;
      if ids[k] !in registered {
        var j :| 0 <= j < k && ids[..k][j] == ids[k];
        assert ids[j] == ids[k];
      }
    }
  }

  /** The panel `createComponent` makes for an entry, with the orientation assigned. */
  function Created(entry: SerializedPanel, orientation: Orientation): Panel
  {
    Panel(entry.data.id, entry.data.component, map[], orientation, None, None, None, None, false)
  }

  /** What the deferred `init` call gives a created panel. */
  function Initialised(p: Panel, entry: SerializedPanel): Panel
  {
    p.(params := entry.data.props,
       minimumSize := entry.minimumSize,
       maximumSize := entry.maximumSize,
       snap := entry.snap,
       priority := entry.priority)
  }

  /** The view list the new splitview holds once every queued `init` has run. */
  function RestoredItems(doc: SerializedSplitview): (items: seq<Item>)
    ensures |items| == |doc.views|
    ensures Ids(items) == DocIds(doc)
    ensures forall i :: 0 <= i < |doc.views| ==>
      items[i] == Item(Initialised(Created(doc.views[i], doc.orientation), doc.views[i]), doc.views[i].size, true)
  {
    var items := seq(|doc.views|, i requires 0 <= i < |doc.views| =>
      Item(Initialised(Created(doc.views[i], doc.orientation), doc.views[i]), doc.views[i].size, true));
    assert Ids(items) == DocIds(doc);
    items
  }

  /** `getPanel(activeView)?.setActive(true)`: flag the named panel active, if present. */
  function MarkActive(items: seq<Item>, activeView: Option<string>): (r: seq<Item>)
    ensures |r| == |items| && Ids(r) == Ids(items)
    ensures forall i :: 0 <= i < |items| ==>
      r[i].size == items[i].size && r[i].visible == items[i].visible &&
      r[i].view == items[i].view.(active := r[i].view.active)
    ensures forall i :: 0 <= i < |items| && (activeView.None? || i != IndexOf(items, activeView.value)) ==>
      r[i].view.active == items[i].view.active
    ensures activeView.Some? && 0 <= IndexOf(items, activeView.value) ==>
      r[IndexOf(items, activeView.value)].view.active
  {
    if activeView.None? then items
    else
      var k := IndexOf(items, activeView.value);
      if k < 0 then items
      else
        var r := items[k := WithActive(items[k], true)];
        assert Ids(r) == Ids(items);
        r
  }

  /**
   * The splitview `fromJSON` builds from a document it accepts.  The new
   * splitview starts with orthogonal size 0.
   */
  function Restore(doc: SerializedSplitview): (sv: Splitview)
    ensures sv.orientation == doc.orientation && sv.size == doc.size
    ensures Ids(sv.views) == DocIds(doc)
  {
    Splitview(doc.orientation, doc.size, 0, MarkActive(RestoredItems(doc), doc.activeView))
  }

  /**
   * A restored splitview with distinct ids: every view is visible, and the
   * one named by `activeView` is the only active panel.
   */
  lemma {:induction false} RestoredFlags(doc: SerializedSplitview)
    requires NoDuplicates(DocIds(doc))
    ensures DistinctIds(Restore(doc).views)
    ensures AtMostOneActive(Restore(doc).views)
    ensures forall i :: 0 <= i < |doc.views| ==>
      Restore(doc).views[i].visible &&
      (Restore(doc).views[i].view.active <==> doc.activeView == Some(doc.views[i].data.id))
  {
    var items := RestoredItems(doc);
    var r := Restore(doc).views;
    forall i | 0 <= i < |r|
      ensures r[i].view.id == doc.views[i].data.id
      ensures r[i].visible
      ensures r[i].view.active <==> doc.activeView == Some(doc.views[i].data.id)
    {
      assert r[i].view.id == Ids(r)[i] == DocIds(doc)[i];
      assert !items[i].view.active;
      if doc.activeView.Some? && doc.views[i].data.id == doc.activeView.value {
        assert items[i].view.id == doc.activeView.value;
        var k := IndexOf(items, doc.activeView.value);
        assert 0 <= k && items[k].view.id == DocIds(doc)[k];
        assert k == i;
      }
    }
  }

  /**
   * Writing a splitview, rebuilding from the document and writing again
   * gives back the same document, except `activeView`: the rebuilt
   * component reports the active panel it had before the import.
   */
  lemma {:induction false} SerializeRestore(sv: Splitview, activePanel: Option<string>, receiver: Option<string>)
    ensures Serialize(Restore(Serialize(sv, activePanel)), receiver) ==
      Serialize(sv, activePanel).(activeView := receiver)
  {
    var doc := Serialize(sv, activePanel);
    var back := Restore(doc);
    var items := RestoredItems(doc);
    var again := Serialize(back, receiver);
    forall i | 0 <= i < |sv.views|
      ensures again.views[i] == doc.views[i]
    {
      assert back.views[i].view == items[i].view.(active := back.views[i].view.active);
      assert back.views[i].size == items[i].size == doc.views[i].size;
      assert again.views[i] == SerializeItem(back, i);
      assert doc.views[i] == SerializeItem(sv, i);
    }
    assert again.views == doc.views;
  }

  /**
   * A component whose registry holds none of a splitview's ids accepts the
   * splitview's own document.
   */
  lemma {:induction false} SerializedAccepted(sv: Splitview, activePanel: Option<string>, registered: set<string>)
    requires DistinctIds(sv.views)
    requires forall i :: 0 <= i < |sv.views| ==> sv.views[i].view.id !in registered
    ensures FirstClash(registered, DocIds(Serialize(sv, activePanel)), 0).None?
  {
    var ids := DocIds(Serialize(sv, activePanel));
    forall i, j | 0 <= i < |ids| && 0 <= j < |ids| && i != j
      ensures ids[i] != ids[j]
    {
      assert ids[i] == sv.views[i].view.id && ids[j] == sv.views[j].view.id;
    }
    AcceptedIff(registered, ids);
  }
}
