/**
 * The panel-level split view: a registry of panels by id, the active panel,
 * the mapping between width/height and the splitview's axes, and JSON
 * export and import, all on top of the inner splitview of module Core.
 */
module Component {
  import opened Core
  import opened Serialization

  /**
   * The focus listener `doAddView` registers for a panel, the disposable
   * the registry keeps under the panel's id.  Disposing it is modelled by
   * taking it out of the registry.
   */
  datatype Subscription = FocusSubscription(panelId: string)

  /** The errors the component and its splitview throw. */
  datatype Error = PanelExists(id: string) | IndexOutOfRange(index: int)

  /** `AddSplitviewComponentOptions`. */
  datatype AddPanelOptions = AddPanelOptions(
    id: string,
    component: string,
    params: Params,
    snap: Option<bool>,
    priority: Option<LayoutPriority>,
    size: Option<int>,  // carried but unused: the sizes the splitview assigns come in as `resized`
    index: Option<int>,
    minimumSize: Option<int>,
    maximumSize: Option<int>)

  /** One call of a panel's `init`, with how many views the splitview held when it ran. */
  datatype InitCall = InitCall(panelId: string, viewsBuilt: nat)

  /** The `width` getter, from the splitview's orientation and two lengths. */
  function OrientedWidth(orientation: Orientation, size: int, orthogonalSize: int): int
  {
    if orientation == Horizontal then size else orthogonalSize
  }

  /** The `height` getter. */
  function OrientedHeight(orientation: Orientation, size: int, orthogonalSize: int): int
  {
    if orientation == Horizontal then orthogonalSize else size
  }

  /**
   * What `layout(width, height)` hands the splitview as (size,
   * orthogonalSize): the getters read back exactly the width and height.
   */
  function AxisSizes(orientation: Orientation, width: int, height: int): (r: (int, int))
    ensures OrientedWidth(orientation, r.0, r.1) == width
    ensures OrientedHeight(orientation, r.0, r.1) == height
  {
    if orientation == Horizontal then (width, height) else (height, width)
  }

  /** The panel `addPanel` creates, with its orientation set and `init` applied. */
  function NewPanel(options: AddPanelOptions, orientation: Orientation): Panel
  {
    Panel(options.id, options.component, options.params, orientation,
          options.minimumSize, options.maximumSize, options.snap, options.priority, false)
  }

  /** The registry entries `doAddView` creates for a list of ids. */
  function Subscriptions(ids: seq<string>): (m: map<string, Subscription>)
    ensures forall x :: x in m <==> x in ids
    ensures forall x :: x in m ==> m[x] == FocusSubscription(x)
  {
    map x | x in ids :: FocusSubscription(x)
  }

  /**
   * An entry whose id is not yet registered is accepted, and registering
   * it extends the registry by its listener.
   */
  lemma {:induction false} AcceptStep(base: map<string, Subscription>, ids: seq<string>, i: nat)
    requires i < |ids| && AcceptedUpTo(base.Keys, ids, i)
    requires ids[i] !in base + Subscriptions(ids[..i])
    ensures AcceptedUpTo(base.Keys, ids, i + 1)
    ensures base + Subscriptions(ids[..i + 1]) == (base + Subscriptions(ids[..i]))[ids[i] := FocusSubscription(ids[i])]
  {
    forall l | 0 <= l < i
      ensures ids[l] != ids[i]
    {
      assert ids[..i][l] == ids[l];
    }
    assert ids[..i + 1] == ids[..i] + [ids[i]];
  }

  /** The `init` calls made for a list of document entries, each with `built` views in place. */
  function InitCalls(entries: seq<SerializedPanel>, built: nat): (calls: seq<InitCall>)
    ensures |calls| == |entries|
    ensures forall i :: 0 <= i < |entries| ==> calls[i] == InitCall(entries[i].data.id, built)
  {
    seq(|entries|, i requires 0 <= i < |entries| => InitCall(entries[i].data.id, built))
  }

  /**
   * The component's invariant over its splitview and registry: every entry
   * is the focus listener of its own id; the views carry distinct ids, all
   * registered; at most one panel is active.
   */
  ghost predicate Consistent(sv: Splitview, panels: map<string, Subscription>)
  {
    && (forall id :: id in panels ==> panels[id] == FocusSubscription(id))
    && DistinctIds(sv.views)
    && AtMostOneActive(sv.views)
    && (forall i :: 0 <= i < |sv.views| ==> sv.views[i].view.id in panels)
  }

  /** Activating a panel keeps the invariant. */
  lemma ActivateConsistent(sv: Splitview, panels: map<string, Subscription>, id: string)
    requires Consistent(sv, panels)
    ensures Consistent(sv.(views := Activate(sv.views, id)), panels)
  {
    ActivateSingle(sv.views, id);
    var r := Activate(sv.views, id);
    forall i | 0 <= i < |r|
      ensures r[i].view.id in panels
    {
      assert r[i].view.id == sv.views[i].view.id;
    }
  }

  /** Inserting and registering a panel with a fresh id keeps the invariant. */
  lemma {:induction false} AddConsistent(sv: Splitview, panels: map<string, Subscription>, view: Panel,
                                         index: Option<int>, resized: seq<int>)
    requires Consistent(sv, panels)
    requires view.id !in panels && !view.active
    requires |resized| == |sv.views| + 1 && AddView(sv, view, index, resized).Some?
    ensures Consistent(AddView(sv, view, index, resized).value, panels[view.id := FocusSubscription(view.id)])
  {
    assert view.id !in Ids(sv.views) by {
      forall i | 0 <= i < |sv.views|
        ensures Ids(sv.views)[i] != view.id
      {
        assert sv.views[i].view.id in panels;
      }
    }
    AddViewKeeps(sv, view, index, resized);
    var k := InsertPosition(|sv.views|, index).value;
    var r := AddView(sv, view, index, resized).value.views;
    forall i | 0 <= i < |r|
      ensures r[i].view.id in panels[view.id := FocusSubscription(view.id)]
    {
      if i < k {
        assert r[i].view == sv.views[i].view;
      } else if i > k {
        assert r[i].view == sv.views[i - 1].view;
      }
    }
  }

  /**
   * Unregistering a panel and removing its view keeps the invariant, and
   * its id is gone from the splitview; when it has no view, unregistering
   * alone keeps the invariant too.
   */
  lemma {:induction false} RemoveConsistent(sv: Splitview, panels: map<string, Subscription>, id: string, resized: seq<int>)
    requires Consistent(sv, panels)
    requires 0 <= IndexOf(sv.views, id) ==> |resized| == |sv.views| - 1
    ensures IndexOf(sv.views, id) < 0 ==> Consistent(sv, panels - {id})
    ensures 0 <= IndexOf(sv.views, id) ==>
      && Consistent(RemoveView(sv, IndexOf(sv.views, id), resized).value, panels - {id})
      && id !in Ids(RemoveView(sv, IndexOf(sv.views, id), resized).value.views)
  {
    var index := IndexOf(sv.views, id);
    if 0 <= index {
      RemoveAtKeeps(sv.views, index);
      var rest := RemoveAt(sv.views, index);
      var r := RemoveView(sv, index, resized).value.views;
      forall i | 0 <= i < |r|
        ensures r[i].view == rest[i].view
        ensures r[i].view.id in panels - {id}
      {
        assert rest[i].view.id == Ids(rest)[i];
        assert Ids(rest)[i] == (if i < index then Ids(sv.views)[i] else Ids(sv.views)[i + 1]);
      }
      assert Ids(r) == Ids(rest);
    }
  }

  /** Moving a view keeps the invariant. */
  lemma {:induction false} MoveConsistent(sv: Splitview, panels: map<string, Subscription>, from: nat, to: nat)
    requires Consistent(sv, panels)
    requires from < |sv.views| && to < |sv.views|
    ensures Consistent(sv.(views := Move(sv.views, from, to)), panels)
  {
    MoveKeeps(sv.views, from, to);
    var r := Move(sv.views, from, to);
    forall i | 0 <= i < |r|
      ensures r[i].view.id in panels
    {
      MoveAt(sv.views, from, to, i);
    }
  }

  /** New sizes, lengths or visibility leave the panels as they are, so the invariant holds. */
  lemma SamePanelsConsistent(sv: Splitview, sv': Splitview, panels: map<string, Subscription>)
    requires Consistent(sv, panels)
    requires |sv'.views| == |sv.views|
    requires forall i :: 0 <= i < |sv.views| ==> sv'.views[i].view == sv.views[i].view
    ensures Consistent(sv', panels)
  {
  }

  /** The splitview restored from an accepted document, with its ids registered, keeps the invariant. */
  lemma {:induction false} RestoreConsistent(data: SerializedSplitview, panels: map<string, Subscription>)
    requires forall id :: id in panels ==> panels[id] == FocusSubscription(id)
    requires FirstClash(panels.Keys, DocIds(data), 0).None?
    ensures Consistent(Restore(data), panels + Subscriptions(DocIds(data)))
  {
    AcceptedIff(panels.Keys, DocIds(data));
    RestoredFlags(data);
    var r := Restore(data).views;
    forall j | 0 <= j < |r|
      ensures r[j].view.id in panels + Subscriptions(DocIds(data))
    {
      assert Ids(r)[j] == DocIds(data)[j];
    }
  }

  /**
   * Because `fromJSON` never clears the registry, a component that holds
   * any view refuses its own document at the first entry.
   */
  lemma {:induction false} OwnDocumentRefused(sv: Splitview, panels: map<string, Subscription>, activePanel: Option<string>)
    requires Consistent(sv, panels) && |sv.views| > 0
    ensures FirstClash(panels.Keys, DocIds(Serialize(sv, activePanel)), 0) == Some(0)
  {
    var ids := DocIds(Serialize(sv, activePanel));
    assert ids[0] == sv.views[0].view.id;
    FirstClashAt(panels.Keys, ids, 0);
  }

  class SplitviewComponent {
    var splitview: Splitview
    var activePanel: Option<string>
    var panels: map<string, Subscription>
    /** The `init` calls made on panels so far, in order. */
    ghost var initLog: seq<InitCall>
    /**
     * Whether `splitview` is still the one the constructor handed to the
     * component's own disposal list.  A splitview installed by `fromJSON`
     * is never added to that list.
     */
    var ownsSplitview: bool

    ghost predicate Valid()
      reads this
    {
      Consistent(splitview, panels)
    }

    constructor (orientation: Orientation)
      ensures Valid()
      ensures splitview == Splitview(orientation, 0, 0, [])
      ensures activePanel == None && panels == map[] && initLog == []
      ensures ownsSplitview
    {
      splitview := Splitview(orientation, 0, 0, []);
      activePanel := None;
      panels := map[];
      initLog := [];
      ownsSplitview := true;
    }

    function Width(): int
      reads this
    {
      OrientedWidth(splitview.orientation, splitview.size, splitview.orthogonalSize)
    }

    function Height(): int
      reads this
    {
      OrientedHeight(splitview.orientation, splitview.size, splitview.orthogonalSize)
    }

    /** The number of registry entries. */
    function Length(): nat
      reads this
    {
      |panels|
    }

    function GetPanels(): seq<Panel>
      reads this
    {
      seq(|splitview.views|, i requires 0 <= i < |splitview.views| reads this => splitview.views[i].view)
    }

    function GetPanel(id: string): Option<Panel>
      reads this
    {
      Find(splitview.views, id)
    }

    function ToJSON(): SerializedSplitview
      reads this
    {
      Serialize(splitview, activePanel)
    }

    /**
     * `setActive(view)`: the panel becomes the active panel, its flag is
     * set and every other panel's flag is cleared.
     */
    method SetActive(id: string)
      requires Valid()
      modifies this
      ensures Valid()
      ensures activePanel == Some(id)
      ensures splitview == old(splitview).(views := Activate(old(splitview.views), id))
      ensures forall p :: p in GetPanels() ==> (p.active <==> p.id == id)
      ensures panels == old(panels) && initLog == old(initLog) && ownsSplitview == old(ownsSplitview)
    {
      activePanel := Some(id);
      ghost var before := splitview.views;
      var i := 0;
      while i < |splitview.views|
        invariant 0 <= i <= |splitview.views| == |before|
        invariant splitview == old(splitview).(views := splitview.views)
        invariant forall j :: 0 <= j < |before| ==>
          splitview.views[j] == (if j < i && before[j].view.id != id then WithActive(before[j], false) else before[j])
        invariant activePanel == Some(id) && panels == old(panels) && initLog == old(initLog) && ownsSplitview == old(ownsSplitview)
      {
        if splitview.views[i].view.id != id {
          splitview := splitview.(views := splitview.views[i := WithActive(splitview.views[i], false)]);
        }
        i := i + 1;
      }
      var k := IndexOf(splitview.views, id);
      if k >= 0 {
        splitview := splitview.(views := splitview.views[k := WithActive(splitview.views[k], true)]);
      }
      forall j | 0 <= j < |before|
        ensures splitview.views[j] == Activate(before, id)[j]
      {
        if before[j].view.id == id {
          assert k >= 0 && before[k].view.id == id;
          assert j == k;
        }
      }
      assert splitview.views == Activate(before, id);
      ActivateConsistent(old(splitview), panels, id);
    }

    /** A panel's focus event: focusing a registered panel makes it the active one. */
    method OnFocusChange(id: string, isFocused: bool)
      requires Valid()
      modifies this
      ensures Valid()
      ensures isFocused && id in old(panels) ==>
        activePanel == Some(id) && splitview == old(splitview).(views := Activate(old(splitview.views), id))
      ensures !(isFocused && id in old(panels)) ==>
        activePanel == old(activePanel) && splitview == old(splitview)
      ensures panels == old(panels) && initLog == old(initLog) && ownsSplitview == old(ownsSplitview)
    {
      if !isFocused {
        return;
      }
      if id in panels {
        SetActive(panels[id].panelId);
      }
    }

    /** `doAddView`: register the panel's focus listener under its id. */
    method DoAddView(id: string)
      modifies this
      ensures panels == old(panels)[id := FocusSubscription(id)]
      ensures splitview == old(splitview) && activePanel == old(activePanel) && initLog == old(initLog) && ownsSplitview == old(ownsSplitview)
    {
      panels := panels[id := FocusSubscription(id)];
    }

    /**
     * `addPanel`: a registered id is refused before anything happens;
     * otherwise the panel is created and initialised, inserted, registered
     * and made active.  `resized` is the sizes the splitview gives the
     * views after the insertion.
     */
    method AddPanel(options: AddPanelOptions, resized: seq<int>) returns (err: Option<Error>)
      requires Valid()
      requires |resized| == |splitview.views| + 1
      modifies this
      ensures Valid()
      ensures options.id in old(panels) ==>
        && err == Some(PanelExists(options.id))
        && splitview == old(splitview) && panels == old(panels)
        && activePanel == old(activePanel) && initLog == old(initLog)
      ensures options.id !in old(panels) ==>
        initLog == old(initLog) + [InitCall(options.id, |old(splitview.views)|)]
      ensures options.id !in old(panels) && InsertPosition(|old(splitview.views)|, options.index).None? ==>
        && err == Some(IndexOutOfRange(options.index.value))
        && splitview == old(splitview) && panels == old(panels) && activePanel == old(activePanel)
      ensures options.id !in old(panels) && InsertPosition(|old(splitview.views)|, options.index).Some? ==>
        && err == None
        && panels == old(panels)[options.id := FocusSubscription(options.id)]
        && Length() == old(Length()) + 1
        && activePanel == Some(options.id)
        && var added := AddView(old(splitview), NewPanel(options, old(splitview.orientation)), options.index, resized).value;
           splitview == added.(views := Activate(added.views, options.id))
      ensures options.id !in old(panels) && InsertPosition(|old(splitview.views)|, options.index).Some? ==>
        GetPanel(options.id) == Some(NewPanel(options, old(splitview.orientation)).(active := true))
      ensures ownsSplitview == old(ownsSplitview)
    {
      if options.id in panels {
        return Some(PanelExists(options.id));
      }
      var view := NewPanel(options, splitview.orientation);
      initLog := initLog + [InitCall(options.id, |splitview.views|)];
      var added := AddView(splitview, view, options.index, resized);
      if added.None? {
        return Some(IndexOutOfRange(options.index.value));
      }
      AddConsistent(splitview, panels, view, options.index, resized);
      splitview := added.value;
      DoAddView(options.id);
      ghost var k := InsertPosition(|old(splitview.views)|, options.index).value;
      assert splitview.views[k].view == view;
      SetActive(options.id);
      assert IndexOf(splitview.views, options.id) == k;
      err := None;
    }

    /**
     * `removePanel`: the registry entry goes first; then the panel's view
     * is removed, or, when the panel is not in the splitview, the
     * splitview refuses index -1.  The active panel is left as it was.
     */
    method RemovePanel(id: string, resized: seq<int>) returns (err: Option<Error>)
      requires Valid()
      requires id in Ids(splitview.views) ==> |resized| == |splitview.views| - 1
      modifies this
      ensures Valid()
      ensures panels == old(panels) - {id}
      ensures activePanel == old(activePanel) && initLog == old(initLog) && ownsSplitview == old(ownsSplitview)
      ensures IndexOf(old(splitview.views), id) < 0 ==>
        err == Some(IndexOutOfRange(-1)) && splitview == old(splitview)
      ensures 0 <= IndexOf(old(splitview.views), id) ==>
        && err == None
        && splitview == RemoveView(old(splitview), IndexOf(old(splitview.views), id), resized).value
        && id !in Ids(splitview.views)
    {
      RemoveConsistent(splitview, panels, id, resized);
      panels := panels - {id};
      var index := IndexOf(splitview.views, id);
      var removed := RemoveView(splitview, index, resized);
      if removed.None? {
        return Some(IndexOutOfRange(index));
      }
      splitview := removed.value;
      err := None;
    }

    /** `movePanel(from, to)`: the splitview moves the view, or refuses an index out of range. */
    method MovePanel(from: int, to: int) returns (err: Option<Error>)
      requires Valid()
      modifies this
      ensures Valid()
      ensures 0 <= from < |old(splitview.views)| && 0 <= to < |old(splitview.views)| ==>
        && err == None
        && splitview == old(splitview).(views := Move(old(splitview.views), from, to))
      ensures !(0 <= from < |old(splitview.views)| && 0 <= to < |old(splitview.views)|) ==>
        && err == Some(IndexOutOfRange(if 0 <= from < |old(splitview.views)| then to else from))
        && splitview == old(splitview)
      ensures panels == old(panels) && activePanel == old(activePanel) && initLog == old(initLog) && ownsSplitview == old(ownsSplitview)
    {
      var moved := MoveView(splitview, from, to);
      if moved.None? {
        return Some(IndexOutOfRange(if 0 <= from < |splitview.views| then to else from));
      }
      MoveConsistent(splitview, panels, from, to);
      splitview := moved.value;
      err := None;
    }

    /** `setVisible(panel, visible)`: the splitview flips the view's visibility, or refuses index -1. */
    method SetVisible(id: string, visible: bool, resized: seq<int>) returns (err: Option<Error>)
      requires Valid()
      requires |resized| == |splitview.views|
      modifies this
      ensures Valid()
      ensures IndexOf(old(splitview.views), id) < 0 ==>
        err == Some(IndexOutOfRange(-1)) && splitview == old(splitview)
      ensures 0 <= IndexOf(old(splitview.views), id) ==>
        && err == None
        && splitview == SetViewVisible(old(splitview), IndexOf(old(splitview.views), id), visible, resized).value
      ensures panels == old(panels) && activePanel == old(activePanel) && initLog == old(initLog) && ownsSplitview == old(ownsSplitview)
    {
      var index := IndexOf(splitview.views, id);
      var updated := SetViewVisible(splitview, index, visible, resized);
      if updated.None? {
        return Some(IndexOutOfRange(index));
      }
      SamePanelsConsistent(splitview, updated.value, panels);
      splitview := updated.value;
      err := None;
    }

    /**
     * `layout(width, height)`: the splitview gets (width, height) when
     * horizontal and (height, width) when vertical, so the `width` and
     * `height` getters read back what was laid out.
     */
    method Layout(width: int, height: int, resized: seq<int>)
      requires Valid()
      requires |resized| == |splitview.views|
      modifies this
      ensures Valid()
      ensures Width() == width && Height() == height
      ensures var (size, orthogonalSize) := AxisSizes(old(splitview.orientation), width, height);
        splitview == Core.Layout(old(splitview), size, orthogonalSize, resized)
      ensures panels == old(panels) && activePanel == old(activePanel) && initLog == old(initLog) && ownsSplitview == old(ownsSplitview)
    {
      var (size, orthogonalSize) := AxisSizes(splitview.orientation, width, height);
      SamePanelsConsistent(splitview, Core.Layout(splitview, size, orthogonalSize, resized), panels);
      splitview := Core.Layout(splitview, size, orthogonalSize, resized);
    }

    /**
     * The `views.map` callback of `fromJSON`, entry by entry: an id found in
     * the registry stops the import; otherwise the panel is created, its
     * `init` is queued, and its id is registered before the next entry is
     * looked at.
     */
    method BuildViews(data: SerializedSplitview) returns (clash: Option<nat>, built: seq<Item>, queue: seq<SerializedPanel>)
      modifies this
      ensures clash == FirstClash(old(panels).Keys, DocIds(data), 0)
      ensures clash.Some? ==> panels == old(panels) + Subscriptions(DocIds(data)[..clash.value])
      ensures clash.None? ==>
        && panels == old(panels) + Subscriptions(DocIds(data))
        && queue == data.views
        && |built| == |data.views|
        && forall j :: 0 <= j < |data.views| ==>
             built[j] == Item(Created(data.views[j], data.orientation), data.views[j].size, true)
      ensures splitview == old(splitview) && activePanel == old(activePanel) && initLog == old(initLog) && ownsSplitview == old(ownsSplitview)
    {
      ghost var ids := DocIds(data);
      ghost var registered := panels.Keys;
      built, queue := [], [];
      var i := 0;
      while i < |data.views| && data.views[i].data.id !in panels
        invariant 0 <= i <= |data.views|
        invariant AcceptedUpTo(registered, ids, i)
        invariant panels == old(panels) + Subscriptions(ids[..i])
        invariant queue == data.views[..i]
        invariant |built| == i
        invariant forall j :: 0 <= j < i ==>
          built[j] == Item(Created(data.views[j], data.orientation), data.views[j].size, true)
        invariant splitview == old(splitview) && activePanel == old(activePanel) && initLog == old(initLog) && ownsSplitview == old(ownsSplitview)
      {
        var entry := data.views[i];
        AcceptStep(old(panels), ids, i);
        var panel := Created(entry, data.orientation);
        assert data.views[..i + 1] == data.views[..i] + [entry];
        queue := queue + [entry];
        DoAddView(panel.id);
        built := built + [Item(panel, entry.size, true)];
        i := i + 1;
      }
      AcceptedUpToNoClash(registered, ids, i);
      if i < |data.views| {
        assert Clashes(registered, ids, i);
        FirstClashAt(registered, ids, i);
        clash := Some(i);
      } else {
        assert ids[..i] == ids;
        clash := None;
      }
    }

    /** `queue.forEach((f) => f())`: the deferred `init` calls run in order on the views in place. */
    method RunInits(queue: seq<SerializedPanel>)
      requires |splitview.views| == |queue|
      modifies this
      ensures splitview == old(splitview).(views := splitview.views)
      ensures |splitview.views| == |queue|
      ensures forall j :: 0 <= j < |queue| ==>
        splitview.views[j] == old(splitview.views)[j].(view := Initialised(old(splitview.views)[j].view, queue[j]))
      ensures initLog == old(initLog) + InitCalls(queue, |queue|)
      ensures panels == old(panels) && activePanel == old(activePanel) && ownsSplitview == old(ownsSplitview)
    {
      var k := 0;
      while k < |queue|
        invariant 0 <= k <= |queue|
        invariant splitview == old(splitview).(views := splitview.views)
        invariant |splitview.views| == |queue|
        invariant forall j :: 0 <= j < |queue| ==>
          splitview.views[j] == (if j < k then old(splitview.views)[j].(view := Initialised(old(splitview.views)[j].view, queue[j]))
                                 else old(splitview.views)[j])
        invariant initLog == old(initLog) + InitCalls(queue[..k], |queue|)
        invariant panels == old(panels) && activePanel == old(activePanel) && ownsSplitview == old(ownsSplitview)
      {
        var item := splitview.views[k];
        splitview := splitview.(views := splitview.views[k := item.(view := Initialised(item.view, queue[k]))]);
        initLog := initLog + [InitCall(queue[k].data.id, |splitview.views|)];
        assert queue[..k + 1] == queue[..k] + [queue[k]];
        k := k + 1;
      }
      assert queue[..k] == queue;
    }

    /**
     * `fromJSON`: the current splitview is disposed; each entry's id is
     * checked against the registry and registered before the next entry
     * is looked at; the `init` calls wait in a queue until the new
     * splitview holds every view, then run in document order; finally the
     * panel named by `activeView` gets its flag, while `activePanel` is
     * left as it was.  The registry is never cleared.
     */
    method FromJSON(data: SerializedSplitview) returns (err: Option<Error>)
      requires Valid()
      modifies this
      ensures Valid()
      ensures activePanel == old(activePanel)
      ensures FirstClash(old(panels).Keys, DocIds(data), 0).None? ==>
        && err == None
        && splitview == Restore(data)
        && panels == old(panels) + Subscriptions(DocIds(data))
        && initLog == old(initLog) + InitCalls(data.views, |data.views|)
        && !ownsSplitview
        && forall sv, a :: data == Serialize(sv, a) ==> ToJSON() == data.(activeView := activePanel)
      ensures FirstClash(old(panels).Keys, DocIds(data), 0).Some? ==>
        var k := FirstClash(old(panels).Keys, DocIds(data), 0).value;
        && err == Some(PanelExists(data.views[k].data.id))
        && splitview == Core.Dispose(old(splitview))
        && panels == old(panels) + Subscriptions(DocIds(data)[..k])
        && initLog == old(initLog)
        && ownsSplitview == old(ownsSplitview)
    {
      splitview := Core.Dispose(splitview);
      var clash, built, queue := BuildViews(data);
      if clash.Some? {
        return Some(PanelExists(data.views[clash.value].data.id));
      }
      splitview := Splitview(data.orientation, data.size, 0, built);
      ownsSplitview := false;
      RunInits(queue);
      assert splitview.views == RestoredItems(data);
      if data.activeView.Some? {
        var index := IndexOf(splitview.views, data.activeView.value);
        if index >= 0 {
          splitview := splitview.(views := splitview.views[index := WithActive(splitview.views[index], true)]);
        }
      }
      RestoreConsistent(data, old(panels));
      forall sv, a | data == Serialize(sv, a)
        ensures ToJSON() == data.(activeView := activePanel)
      {
        SerializeRestore(sv, a, activePanel);
      }
      err := None;
    }

    /**
     * `dispose`: every registry entry is disposed and the registry cleared.
     * The base class then disposes what the constructor registered, which
     * is the current splitview only when no import has replaced it; an
     * imported splitview keeps its views, unregistered.
     */
    method Dispose()
      requires Valid()
      modifies this
      ensures panels == map[]
      ensures splitview == if old(ownsSplitview) then Core.Dispose(old(splitview)) else old(splitview)
      ensures old(ownsSplitview) ==> Valid()
      ensures activePanel == old(activePanel) && initLog == old(initLog) && ownsSplitview == old(ownsSplitview)
    {
      panels := map[];
      if ownsSplitview {
        splitview := Core.Dispose(splitview);
      }
    }
  }
}
