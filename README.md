# Panel split view: a Dafny model

This project models `SplitviewComponent`, the panel-level split view of the
splitview package. The component sits on top of an inner splitview. It adds:

- a registry of panels keyed by id, whose entries are each panel's focus subscription;
- the active panel, and the active flag every panel carries;
- the mapping between width/height and the splitview's size/orthogonal size, which depends on orientation;
- export to a JSON document (`toJSON`) and rebuilding from one (`fromJSON`).

The project has three modules:

- `Core` (core.dfy) models the inner splitview as a value. It is an orientation, two lengths and an ordered list of items. Each item is a panel with its stored size and a visibility flag. The splitview's own source is not part of this model. Only its observable list operations are modelled: insert at an index or at the end, remove, move, set visibility, lay out, read a stored size, dispose. An index out of range is refused (`None`). Where the splitview would recompute sizes, the new sizes are an input named `resized`.
- `Serialization` (serialization.dfy) models the document shapes `SerializedSplitview` and `SerializedSplitviewPanel`, and the record `toJSON` writes for each view. It also gives the first document entry `fromJSON` refuses, and the splitview `fromJSON` builds from a document it accepts. Lemmas relate export and import.
- `Component` (component.dfy) holds the class `SplitviewComponent`. Its fields are `splitview`, `activePanel` and `panels`, and its methods change them in place. A ghost `initLog` records each panel `init` call in order, together with how many views the splitview held when it ran. The class invariant `Valid()` holds between calls, up to a `dispose` that leaves imported views behind:
  - every registry entry is the subscription of its own id;
  - view ids are distinct and all registered;
  - at most one panel is flagged active.

Panels are identified by their id. The source compares panel objects. For panels currently in the splitview the two agree, because the invariant keeps their ids distinct.

The model keeps these behaviours of the code, some of which look unintended:

- `fromJSON` does not clear the registry before it imports. A component that holds any panel therefore refuses its own document (`OwnDocumentRefused`).
- `fromJSON` checks ids one entry at a time and registers each before the next is checked. A refused document leaves the earlier entries registered and the old splitview disposed.
- `fromJSON` sets the named panel's active flag directly and does not update `activePanel`. A round trip therefore reproduces ids, order, sizes, limits, snap, priority and orientation, but not the active view (`SerializeRestore`).
- Views that were hidden come back visible.
- The constructor hands its splitview to the component's disposal list; a splitview installed by `fromJSON` is never added to it. After an import, `dispose` empties the registry but leaves the imported views in place (field `ownsSplitview`), and the forwarded `onDidSashEnd` listener of the imported splitview is never attached.

## Model

| member | source | states |
|---|---|---|
| Core.IndexOf | packages/splitview/src/splitview/splitviewComponent.ts:155 | the result is -1 exactly when no view holds the id; otherwise it is the first position holding it |
| Core.Find | packages/splitview/src/splitview/splitviewComponent.ts:159-161 | `getPanel` finds nothing exactly when the id is absent; otherwise it returns the panel at the first position carrying that id |
| Core.Activate | packages/splitview/src/splitview/splitviewComponent.ts:137-144 | the list after `setActive`: same ids, sizes and visibility; a panel is active iff its id is the chosen one; nothing else about a panel changes |
| Core.ActivateSingle | packages/splitview/src/splitview/splitviewComponent.ts:137-144 | after activation at most one panel is active, exactly one when the id is present, and ids stay distinct |
| Core.InsertPosition | packages/splitview/src/splitview/splitviewComponent.ts:189-192 | no index means the end; an index is accepted iff it lies between 0 and the view count, and then it is the position |
| Core.AddView | packages/splitview/src/splitview/splitviewComponent.ts:192 | insertion succeeds iff the position is valid; the id list gains the new id at that position, the new item is visible, and the other items keep their order and panels |
| Core.AddViewKeeps | packages/splitview/src/splitview/splitviewComponent.ts:163-196 | inserting a panel with a fresh id keeps ids distinct; inserting an inactive one keeps at most one panel active |
| Core.RemoveView | packages/splitview/src/splitview/splitviewComponent.ts:155-156 | removal succeeds iff the index addresses a view; the id list loses exactly that position and the rest keep their relative order |
| Core.RemoveAtKeeps | packages/splitview/src/splitview/splitviewComponent.ts:150-157 | removing a position keeps ids distinct and at most one active; the removed id is gone and no new id appears |
| Core.Move | packages/splitview/src/splitview/splitviewComponent.ts:128-130 | a move keeps the length, puts the moved item at the target and is a permutation of the items |
| Core.MoveAt | packages/splitview/src/splitview/splitviewComponent.ts:128-130 | each position of the moved list holds the item from its source position: the moved item at the target, and the others shifted by one across the gap |
| Core.MoveSourceInjective | packages/splitview/src/splitview/splitviewComponent.ts:128-130 | no two positions of the moved list come from the same source position |
| Core.MoveKeeps | packages/splitview/src/splitview/splitviewComponent.ts:128-130 | a move keeps ids distinct and at most one panel active |
| Core.MoveKeepsIds | packages/splitview/src/splitview/splitviewComponent.ts:128-130 | a move keeps exactly the same set of ids |
| Core.MoveView | packages/splitview/src/splitview/splitviewComponent.ts:128-130 | `moveView` succeeds iff both indices address views, and then it moves the item |
| Core.SetViewVisible | packages/splitview/src/splitview/splitviewComponent.ts:132-135 | succeeds iff the index addresses a view; only that view's visibility changes, and every panel stays in place |
| Core.Layout | packages/splitview/src/splitview/splitviewComponent.ts:217 | the splitview records both lengths; panels and their order stay |
| Core.Dispose | packages/splitview/src/splitview/splitviewComponent.ts:257 | a disposed splitview holds no views and keeps its orientation and lengths |
| Component.AxisSizes | packages/splitview/src/splitview/splitviewComponent.ts:212-218 | for either orientation, the `width` and `height` getters read back exactly the width and height passed to `layout` |
| Component.Subscriptions | packages/splitview/src/splitview/splitviewComponent.ts:220-229 | the registry entries for a list of ids: one per id, each that id's own subscription |
| Serialization.Serialize | packages/splitview/src/splitview/splitviewComponent.ts:231-252 | one record per view in splitview order, each with its id, `getViewSize(i)`, a boolean snap that is true iff the panel's snap is true, and its limits and priority; plus the active id, orientation and size |
| Serialization.FirstClash | packages/splitview/src/splitview/splitviewComponent.ts:266-297 | the first entry whose id is registered or repeats an earlier entry's id; none exactly when no entry clashes |
| Serialization.FirstClashAt | packages/splitview/src/splitview/splitviewComponent.ts:266-297 | a clashing entry preceded only by accepted ones is the first refused entry |
| Serialization.AcceptedUpToNoClash | packages/splitview/src/splitview/splitviewComponent.ts:266-297 | a prefix of unregistered, pairwise distinct ids has no clashing entry |
| Serialization.AcceptedIff | packages/splitview/src/splitview/splitviewComponent.ts:266-297 | a document is accepted iff its ids are pairwise distinct and none is registered already |
| Serialization.RestoredItems | packages/splitview/src/splitview/splitviewComponent.ts:266-304 | the rebuilt list holds, in document order, each created panel with its `init` applied, its descriptor size and visible |
| Serialization.MarkActive | packages/splitview/src/splitview/splitviewComponent.ts:306-308 | only the panel named by `activeView`, if present, gets its active flag; ids, sizes, visibility and every other panel stay |
| Serialization.Restore | packages/splitview/src/splitview/splitviewComponent.ts:254-309 | the rebuilt splitview has the document's orientation, size and ids in document order |
| Serialization.RestoredFlags | packages/splitview/src/splitview/splitviewComponent.ts:299-308 | with distinct document ids, every rebuilt view is visible, and a panel is active iff it is the one `activeView` names |
| Serialization.SerializeRestore | packages/splitview/src/splitview/splitviewComponent.ts:231-309 | exporting what a document rebuilds gives back the same document, except `activeView`, which is whatever the component reported before |
| Serialization.SerializedAccepted | packages/splitview/src/splitview/splitviewComponent.ts:231-271 | a component with none of the ids registered accepts a splitview's own document |
| Component.AcceptStep | packages/splitview/src/splitview/splitviewComponent.ts:269-297 | an entry with an unregistered id is accepted, and registering it adds exactly its subscription |
| Component.InitCalls | packages/splitview/src/splitview/splitviewComponent.ts:284-304 | one `init` call per document entry, in document order, each made once all views are built |
| Component.ActivateConsistent | packages/splitview/src/splitview/splitviewComponent.ts:137-144 | `setActive` keeps the component invariant |
| Component.AddConsistent | packages/splitview/src/splitview/splitviewComponent.ts:163-196 | inserting and registering a panel with a fresh id keeps the component invariant |
| Component.RemoveConsistent | packages/splitview/src/splitview/splitviewComponent.ts:150-157 | unregistering a panel and removing its view keeps the invariant and leaves the id nowhere in the splitview; a panel without a view can be unregistered alone |
| Component.MoveConsistent | packages/splitview/src/splitview/splitviewComponent.ts:128-130 | moving a view keeps the component invariant |
| Component.SamePanelsConsistent | packages/splitview/src/splitview/splitviewComponent.ts:132-135 | a change of sizes, lengths or visibility that leaves the panels in place keeps the invariant |
| Component.RestoreConsistent | packages/splitview/src/splitview/splitviewComponent.ts:254-309 | an accepted document, once rebuilt and registered, satisfies the component invariant |
| Component.OwnDocumentRefused | packages/splitview/src/splitview/splitviewComponent.ts:254-271 | a component holding any view refuses its own exported document at the first entry, because the registry is not cleared |
| Component.SplitviewComponent.constructor | packages/splitview/src/splitview/splitviewComponent.ts:101-122 | given only an orientation, a new component has an empty splitview of that orientation with both lengths 0, no panels and no active panel |
| Component.SplitviewComponent.SetActive | packages/splitview/src/splitview/splitviewComponent.ts:137-144 | the loop clears every other panel's flag and sets the chosen one's; the active panel becomes the id; the list equals `Activate` of the old list, and every panel `getPanels` returns is active iff it is the chosen one |
| Component.SplitviewComponent.OnFocusChange | packages/splitview/src/splitview/splitviewComponent.ts:220-226 | focusing a registered panel makes it active as `setActive` does; an unfocus event or an unregistered panel changes nothing |
| Component.SplitviewComponent.DoAddView | packages/splitview/src/splitview/splitviewComponent.ts:220-229 | the panel's subscription is registered under its id; nothing else changes |
| Component.SplitviewComponent.AddPanel | packages/splitview/src/splitview/splitviewComponent.ts:163-196 | a registered id is refused with nothing changed. Otherwise `init` runs once, and a bad index is refused by the splitview. On success the id is registered, `length` grows by one, the panel is inserted, it is the only active panel, and `getPanel` returns it as created and initialised |
| Component.SplitviewComponent.RemovePanel | packages/splitview/src/splitview/splitviewComponent.ts:150-157 | the id leaves the registry in every case. The view at its position is removed and the rest keep their order; a panel with no view makes the splitview refuse index -1. The active panel is untouched |
| Component.SplitviewComponent.MovePanel | packages/splitview/src/splitview/splitviewComponent.ts:128-130 | valid indices move the view; otherwise the bad index is refused and nothing changes |
| Component.SplitviewComponent.SetVisible | packages/splitview/src/splitview/splitviewComponent.ts:132-135 | the panel's view changes visibility; a panel with no view makes the splitview refuse index -1 |
| Component.SplitviewComponent.Layout | packages/splitview/src/splitview/splitviewComponent.ts:212-218 | afterwards `width` and `height` equal the arguments, and the splitview received them in orientation order |
| Component.SplitviewComponent.BuildViews | packages/splitview/src/splitview/splitviewComponent.ts:261-302 | the loop stops at exactly the first clashing entry, having registered every earlier id. Without a clash it builds one visible item per entry and queues every `init` in document order |
| Component.SplitviewComponent.RunInits | packages/splitview/src/splitview/splitviewComponent.ts:284-304 | the queued `init` calls run in document order on views already in place, and each is logged with the full view count |
| Component.SplitviewComponent.FromJSON | packages/splitview/src/splitview/splitviewComponent.ts:254-309 | an accepted document replaces the splitview with `Restore(data)`, registers its ids, and logs every `init` after all views are built. A refused one throws for the first clashing id, leaving the old splitview disposed and the earlier ids registered. `activePanel` never changes. After importing any exported document, `toJSON` gives that document back with `activeView` replaced by the component's own active panel |
| Component.SplitviewComponent.Dispose | packages/splitview/src/splitview/splitviewComponent.ts:311-318 | every subscription is dropped and the registry is empty. The splitview is disposed only if it is still the constructor's; an imported splitview keeps its views |

## Left out

- Sizing arithmetic: how the inner splitview distributes, clamps and snaps sizes is not part of this model. `AddPanel`, `RemovePanel`, `SetVisible` and `Layout` take the sizes the splitview assigns afterwards as an input named `resized`. `options.size`, the `sizing` argument of `removePanel` and `proportionalLayout` are therefore not modelled.
- Core.AddView, Core.RemoveView, Core.SetViewVisible, Core.Layout: state nothing about the new sizes beyond storing `resized`, because the arithmetic that produces them is not visible.
- Core.MoveView: assumes a move carries each view's size along unchanged.
- The `minimumSize` and `maximumSize` getters of the component are left out. They read sums the inner splitview computes.
- `focus()`, `resizeToFit()` and the `skipFocus` argument are left out, because they only call into the DOM.
- `createComponent` and `SplitviewApi` are left out. Created panels are plain values built from their id, component name and the `init` parameters.
- Event emitters and `onDidSashEnd` are left out. They only forward events. The focus subscription is a registry entry, and `OnFocusChange` plays the event.
- Object identity is replaced by panel ids. A caller holding a stale panel object, whose id now belongs to a different panel, is not modelled: `removePanel`, `setActive` and `setVisible` with such an object act on the id's current panel in the model, while the source compares objects and may find no view.
- Sizes, lengths and indices are JavaScript numbers in the source. They are modelled as unbounded integers, so fractions, NaN and infinities are not modelled.
- The inner splitview is taken to refuse an index out of range, including an insertion index. `AddPanel` then reports the refusal after `init` has run, without registering the panel.
- Component.SplitviewComponent.constructor: constructor options other than `orientation` are not modelled, in particular a `descriptor` that would give the new splitview initial views and a size. A new splitview is taken to have size and orthogonal size 0, because the splitview constructor is not visible.
- Component.SplitviewComponent.FromJSON: the rebuilt splitview's orthogonal size is taken to be 0, because the splitview constructor that sets it is not visible.
- Core.Dispose: a disposed splitview is treated as holding no views. The splitview's own disposal of DOM elements is not modelled.
- A panel's `toJSON` data is its id, component name and props. Its `state` is not modelled.
- Component.SplitviewComponent.ToJSON, GetPanels, GetPanel, Width, Height and Length are functions without contracts of their own. Their meaning is stated by `Serialize`, `Find`, `AxisSizes` and the contracts of `SetActive`, `AddPanel`, `Layout` and `FromJSON`, which use them.
