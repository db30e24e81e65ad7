# Drag-select store for a room assignment board

This project models the multi-select-and-drag engine behind a room/worker assignment board.
Containers (the unassigned-rooms list and one row per worker) register themselves and their items with a shared store.
The user can:
- marquee-select items;
- click to select or toggle them;
- drag the selection onto another container.

The target container is offered the moving items through `onAdd(items, confirm)`. The sources' `onRemove` calls run only if the target calls `confirm`.

The modules follow the program:

| module | models |
|---|---|
| `Wrappers`, `Elements` | results, JavaScript throws (`TypeError`, unhandled action), refs, keys and item props |
| `Seqs`, `Decimal` | sequence helpers, `Object.entries` key order, `${n}` rendering of numbers |
| `Geometry` | `boxIntersects`, `getSelectionBoxRect`, `intersects` |
| `Store` | the store's `reducer` (`src/DragSelectable/Providers/DragProvider.js`) and `getSelectedItems` |
| `Selection` | `SelectionController`: the throttled marquee recompute, as a class whose field is `nextSelectionUpdate` |
| `Drop` | `DragController`: `getSelectedContainer`, `onMouseMove` (a class holding `selectedContainerRef`), `onMouseUp` (a method with its `forEach` loop), and the deferred `confirm` |
| `ContainerInput` | `DragSelectableContainer`: click and mouse-down routing, item registration, highlight reporting (a class holding the component's refs) |
| `LegacyStore` | the earlier single-phase store and drag controller in `src/DragProvider.js` |
| `Sites`, `Workers` | the callers: `siteReducer`, `genSites`, the unassigned list's callbacks, `assignSelectedToWorker`, `updateWorker`, `totalAssigned`, worker-row callbacks, the debug menu |

How the code is turned into a model:
- DOM measurement becomes a `Layout` map from element ref to rectangle, passed in with the action that measures.
  A ref missing from the map is an unmounted element, and reading its rectangle throws.
- The clock is a parameter.
- Handlers are opaque ids. A call is recorded as data (`AddCall`, `RemoveCall`, `Invocation`, `Call`).
- A throw is `Err(TypeError)` or `Err(UnhandledAction)`.
- What a foreign callback throws is an input where it changes the control flow: the release takes the throw of the target's `onAdd`, which escapes before SET_SELECTED [] is dispatched.
- `Object.entries`/`Object.values` walk integer keys in ascending order, so every walk over the item map goes through `SortedKeys`.

Where the design notes and the code disagree, the model follows the code:
- The selection is not pruned when items or containers go away. `RemoveContainerCascades` states that the selection is untouched.
- A container or item that has no rectangle makes the hit tests throw; it is not skipped.

## Model

| member | source | states |
|---|---|---|
| Geometry.SelectionBoxRect | src/DragSelectable/Providers/DragProvider.js:348-355 | the marquee rectangle has non-negative size, and a point lies in it exactly when it lies between the two corners on both axes |
| Geometry.SelectionBoxSymmetric | src/DragSelectable/Providers/DragProvider.js:348-355 | the marquee does not depend on which corner the drag started from |
| Geometry.BoxIntersectsSymmetric | src/DragSelectable/Providers/DragProvider.js:341-346 | box intersection is symmetric |
| Geometry.BoxIntersectsIffCommonPoint | src/DragSelectable/Providers/DragProvider.js:341-346 | two well-sized boxes intersect exactly when they share a point; boxes that only touch at an edge count |
| Geometry.IntersectsExcludesEdges | src/DragSelectable/Providers/DragProvider.js:357-365 | the point-in-rectangle test is strict: a point on the left or top edge is outside |
| Seqs.WithoutConcat | src/DragSelectable/Providers/DragProvider.js:147-160 | the selection filter keeps order: it works piecewise over a concatenation |
| Seqs.Dedup | src/DragSelectable/Providers/DragProvider.js:178 | `[...new Set(xs)]`: has no duplicates, holds the same elements, keeps the first element, and is the identity on a duplicate-free list |
| Seqs.DedupKeepsFirstOccurrenceOrder | src/DragSelectable/Providers/DragProvider.js:178 | `[...new Set(xs)]` lists values in order of first occurrence: of two values in the result, the earlier one occurs in the input before the later one first does |
| Seqs.SortedKeys | src/DragSelectable/Providers/DragProvider.js:118-129 | the enumeration order of integer object keys: ascending, duplicate-free, exactly the key set |
| Decimal.NatToStringInjective | src/Components/UnassignedView.js:202 | different numbers render as different digit strings |
| Store.BeginSelectionStep | src/DragSelectable/Providers/DragProvider.js:104-131 | BEGIN_SELECTION throws exactly when an item is unmounted; otherwise it records the start point and empties the selection exactly on a plain press on a container root |
| Store.DropRefsConcat | src/DragSelectable/Providers/DragProvider.js:42-53 | the container filter keeps the registration order: it works piecewise over a concatenation |
| Store.RegisterContainer | src/DragSelectable/Providers/DragProvider.js:26-40 | SET_CONTAINER: the new record comes first, refs stay unique, the registered refs are the old ones plus the new one, and under unique refs the others keep their order |
| Store.RegisterContainerIdempotent | src/DragSelectable/Providers/DragProvider.js:26-40 | registering the same record twice is registering it once |
| Store.Reduce | src/DragSelectable/Providers/DragProvider.js:23-224 | the reducer throws exactly for an unknown action type, or for a measuring action that meets an unmounted element; its REMOVE_CONTAINER_ITEM case is the corrected one of the first finding |
| Store.ReducePreservesWellFormed | src/DragSelectable/Providers/DragProvider.js:23-224 | every action keeps container refs distinct and every item under its own key |
| Store.SelectionStaysDuplicateFree | src/DragSelectable/Providers/DragProvider.js:140-160 | a duplicate-free selection stays duplicate-free under every action, given a duplicate-free SET_SELECTED payload |
| Store.SelectToggles | src/DragSelectable/Providers/DragProvider.js:147-160 | ADD_SELECT is a no-op on a selected key and otherwise appends it; REMOVE_SELECT is the order-keeping filter `Without`: exactly that key goes, the other keys keep their order, and nothing else in the store changes |
| Store.RemoveContainerCascades | src/DragSelectable/Providers/DragProvider.js:42-53 | REMOVE_CONTAINER removes the container and every item it owns; the other containers are the order-keeping filter `DropRefs` of the old list, the other items are unchanged, and the selection, drag, start point and highlight are left alone |
| Store.SetContainerItemsReplaces | src/DragSelectable/Providers/DragProvider.js:55-75 | SET_CONTAINER_ITEMS: afterwards the container owns exactly the given keys, each stored from one of the given entries; other containers' items outside the entries are unchanged |
| Store.RemoveOwnedItem | src/DragSelectable/Providers/DragProvider.js:90-102 | REMOVE_CONTAINER_ITEM as intended: it deletes the key exactly when the named container owns it, and keeps every other entry unchanged |
| Store.RemoveContainerItemOnlyOwned | src/DragSelectable/Providers/DragProvider.js:90-102 | with the corrected comparison of the first finding, the reducer deletes the key exactly when the named container owns it, keeps everything else, and never adds keys |
| Store.RemoveContainerItemAsWrittenIsNoop | src/DragSelectable/Providers/DragProvider.js:90-102 | as written, the string-against-number comparison means the action never removes anything, even an owned item |
| Store.MeasureItems | src/DragSelectable/Providers/DragProvider.js:118-129 | item measurement throws exactly when an item element is unmounted; otherwise every item gets its own rectangle and nothing else changes |
| Store.MeasureContainers | src/DragSelectable/Providers/DragProvider.js:183 | container measurement throws exactly when a container element is unmounted; otherwise each container gets its rectangle, in place |
| Store.BeginDragSeedsFromSelection | src/DragSelectable/Providers/DragProvider.js:162-189 | BEGIN_DRAG: the moving list is the dragged key first, then the old selection without duplicates; it also becomes the selection |
| Store.ShadowStackBounded | src/DragSelectable/Providers/DragProvider.js:172-186 | the ghost stack has at most three nodes, and the dragged item's node is the last one, drawn on top |
| Store.ShadowStackSize | src/DragSelectable/Providers/DragProvider.js:172-186 | when every moving key is registered, the ghost stack has exactly min(moving count, 3) nodes |
| Store.EndDragClears | src/DragSelectable/Providers/DragProvider.js:191-196 | END_DRAG clears the drag and the highlight and changes nothing else |
| Store.RegisterThenUnregister | src/DragSelectable/Providers/DragProvider.js:26-75 | register, hand items, unregister: afterwards the container is gone and owns no item |
| Store.SelectedItems | src/DragSelectable/Providers/DragProvider.js:509-513 | `getSelectedItems`: one entry per selected key, `undefined` exactly for an unregistered key |
| Selection.Hits | src/DragSelectable/Providers/DragProvider.js:300-308 | the reference set: a key is a hit exactly when it is enumerated and its measured item overlaps the marquee; no duplicates |
| Selection.CollectColliding | src/DragSelectable/Providers/DragProvider.js:296-308 | the `forEach` that builds `newSelected` computes the specified fold, including the throw on an unmeasured item |
| Selection.ReplaceModeSelectsExactlyOverlapping | src/DragSelectable/Providers/DragProvider.js:296-308 | in replace mode, over measured items, the result is exactly the overlapping keys in enumeration order |
| Selection.AppendModeExtends | src/DragSelectable/Providers/DragProvider.js:296-308 | in append mode the result is the old selection followed by the overlapping keys |
| Selection.CollidingThrowsIffUnmeasured | src/DragSelectable/Providers/DragProvider.js:300-302 | the recompute throws exactly when some item has no rectangle |
| Selection.ReplaceModeResult | src/DragSelectable/Providers/DragProvider.js:286-321 | after a replace-mode recompute the selection is duplicate-free and is exactly the registered keys overlapping the marquee; nothing else in the store changes |
| Selection.AppendModeResult | src/DragSelectable/Providers/DragProvider.js:286-321 | after an append-mode recompute every old and every overlapping key is selected; a dispatched selection has no duplicates |
| Selection.SelectionController.UpdateCollidingChildren | src/DragSelectable/Providers/DragProvider.js:286-321 | before the deadline or without a gesture nothing happens and the deadline stays; otherwise the deadline becomes now + 50 and the outcome is the recompute compared with the current selection |
| Drop.SelectedIndex | src/DragSelectable/Providers/DragProvider.js:367-373 | `getSelectedContainer`: it throws exactly when a container has no rectangle; no result means no container strictly contains the point; otherwise the chosen container contains the point, has strictly higher priority than every earlier one, and at least the priority of every later one |
| Drop.HighestPriorityWins | src/DragSelectable/Providers/DragProvider.js:367-373 | a container of strictly highest priority under the pointer is chosen, wherever it is in the list |
| Drop.FirstWinsTies | src/DragSelectable/Providers/DragProvider.js:372 | among equal top priorities the earliest in list order wins (stable sort) |
| Drop.FindContainer | src/DragSelectable/Providers/DragProvider.js:418 | `find` by ref: found exactly when the ref is registered, and what is found has that ref |
| Drop.MovingItems | src/DragSelectable/Providers/DragProvider.js:406 | the moving items, one per dragged key; it fails exactly when a key is unregistered |
| Drop.Sources | src/DragSelectable/Providers/DragProvider.js:407-411 | the source containers: duplicate-free, and exactly the owners of moving items other than the target |
| Drop.PayloadsFrom | src/DragSelectable/Providers/DragProvider.js:419-421 | the payloads a source gives up; empty exactly when it owns no moving item |
| Drop.PayloadsNotFrom | src/DragSelectable/Providers/DragProvider.js:432-434 | the add-set; empty exactly when the target owns every moving item |
| Drop.PayloadsPartition | src/DragSelectable/Providers/DragProvider.js:416-435 | every moving payload is either the target's own or in the add-set, exactly once |
| Drop.Removals | src/DragSelectable/Providers/DragProvider.js:413-429 | one prepared removal per source that owns a moving item, with exactly that source's payloads and its container looked up; duplicate-free sources |
| Drop.PrepareRemovals | src/DragSelectable/Providers/DragProvider.js:413-429 | the `forEach` fills `removeCalls` as specified and raises `wasModified` exactly when a removal was prepared |
| Drop.OnMouseUp | src/DragSelectable/Providers/DragProvider.js:395-447 | the release handler computes `MouseUp`: END_DRAG first, then the `onAdd` call, and SET_SELECTED [] only once `onAdd` has returned; a throw from `onAdd` ends the handler |
| Drop.Confirm | src/DragSelectable/Providers/DragProvider.js:423-441 | running `confirm` calls each prepared `onRemove` in order with its payloads and stops with a throw at the first source that was not registered in the store snapshot the release read |
| Drop.ReleaseEndsDrag | src/DragSelectable/Providers/DragProvider.js:397-404 | every release dispatches END_DRAG first; over no container nothing else happens |
| Drop.TargetFound | src/DragSelectable/Providers/DragProvider.js:431 | the container found by the target's ref is the target |
| Drop.ReleaseOffersAddSet | src/DragSelectable/Providers/DragProvider.js:431-446 | the target's `onAdd` is offered exactly the moving payloads it does not own; the selection is cleared exactly when an offer is made and `onAdd` returns, and a throw from `onAdd` is the release's throw |
| Drop.ReleasePreparesRemovals | src/DragSelectable/Providers/DragProvider.js:407-429 | the removals handed to `confirm` come from the distinct non-target owners, each with exactly its payloads |
| Drop.SameContainerDropIsNoop | src/DragSelectable/Providers/DragProvider.js:407-446 | dropping onto the container that owns every moving item only ends the drag |
| Drop.ReleaseKeepsRegistry | src/DragSelectable/Providers/DragProvider.js:395-447 | nothing is removed at release: the dispatched actions leave containers and items unchanged |
| Drop.ConfirmRemovesWhatWasAdded | src/DragSelectable/Providers/DragProvider.js:413-442 | when every source is still registered, confirm hands the sources' `onRemove` calls exactly the payloads offered to `onAdd` (as a multiset) |
| Drop.SourcesHoldAddSet | src/DragSelectable/Providers/DragProvider.js:407-435 | the sources together own exactly the add-set |
| Drop.TrackSettles | src/DragSelectable/Providers/DragProvider.js:382-393 | at most one SET_HIGHLIGHTED per move, none when the container under the pointer is unchanged, and a repeated move dispatches nothing |
| Drop.TrackHighlightsTarget | src/DragSelectable/Providers/DragProvider.js:386-391 | a dispatched highlight names the container under the pointer, and the store records exactly that |
| Drop.FirstMoveOverNothingDispatches | src/DragSelectable/Providers/DragProvider.js:379-391 | the first move over no container still dispatches SET_HIGHLIGHTED null, since `undefined !== null` |
| Drop.DragController.OnMouseMove | src/DragSelectable/Providers/DragProvider.js:382-393 | the handler updates `selectedContainerRef` and dispatches as `Track` specifies; on a throw the ref is untouched |
| ContainerInput.ModifierClickToggles | src/DragSelectable/DragSelectableContainer.js:114-123 | a click with ctrl, alt or shift flips the clicked key, keeps every other key, and keeps the selection duplicate-free |
| ContainerInput.PlainClickSelectsOnly | src/DragSelectable/DragSelectableContainer.js:125-129 | a plain click deselects a selected key alone, or makes an unselected key the only selection |
| ContainerInput.MouseDownRouting | src/DragSelectable/DragSelectableContainer.js:92-105 | a `noSelection` container and button 2 do nothing; a drag handle only ever begins a drag of the grabbed key; any other press starts a gesture at the pressed point, empties the selection on a plain press on a container root and keeps it otherwise |
| ContainerInput.Registration | src/DragSelectable/DragSelectableContainer.js:32-41 | the registration action names this container, with exactly the children's ids as keys |
| ContainerInput.RegistrationOwnsChildren | src/DragSelectable/DragSelectableContainer.js:32-44 | after registration the container owns exactly its children's ids |
| ContainerInput.JoinedKeys | src/DragSelectable/DragSelectableContainer.js:31 | the joined key string is all digits, at least one per key, and empty exactly for no children |
| ContainerInput.JoinedKeysSnoc | src/DragSelectable/DragSelectableContainer.js:31 | one more key appends just its digits, with no separator |
| ContainerInput.JoinedKeysCollide | src/DragSelectable/DragSelectableContainer.js:31 | the key lists [1, 13] and [11, 3] join to the same string |
| ContainerInput.MemoAsWrittenMissesChange | src/DragSelectable/DragSelectableContainer.js:31-44 | as written, a container registered for [1, 13] that now renders [11, 3] dispatches nothing and the store stays out of step; the list-keyed memo re-registers |
| ContainerInput.MemoKeepsStoreSynced | src/DragSelectable/DragSelectableContainer.js:31-44 | the list-keyed memo keeps the owned keys equal to the rendered children's ids on every render |
| ContainerInput.ContainerView.RegisterItems | src/DragSelectable/DragSelectableContainer.js:31-44 | the memo field and the dispatch follow the corrected, list-keyed `Memo` of the second finding; the highlight field is untouched |
| ContainerInput.ReportsOnlyChanges | src/DragSelectable/DragSelectableContainer.js:22-28 | over successive renders only changes are reported: no two successive reports are equal, and the last report is the current flag |
| ContainerInput.FirstRenderReports | src/DragSelectable/DragSelectableContainer.js:22-28 | the first render reports the flag even when it is false |
| ContainerInput.ContainerView.NoticeHighlight | src/DragSelectable/DragSelectableContainer.js:22-28 | the field records the current flag, and a report is made exactly when it changed and a handler exists |
| LegacyStore.LRegister | src/DragProvider.js:24-37 | the new record is first, refs are unique, and every other record that survives is an old record with another ref |
| LegacyStore.LUnregister | src/DragProvider.js:39-44 | exactly the records with other refs remain |
| LegacyStore.LReduce | src/DragProvider.js:21-78 | the legacy reducer throws exactly for an unknown type or a BEGIN_DRAG naming an unregistered container |
| LegacyStore.LRegistryUpdates | src/DragProvider.js:24-44 | registration keeps refs unique, `find` returns the new record, other records survive under unique refs; removal drops the ref and keeps the rest; the drag is untouched |
| LegacyStore.LDragLifecycle | src/DragProvider.js:46-76 | BEGIN_DRAG records the payload and its source and calls `onHighlightBegin` if it is a function; END_DRAG, SET_FOCUS and unknown types behave as written |
| LegacyStore.FirstUnder | src/DragProvider.js:125-146 | the release's `find`: the first container strictly containing the point, none only if none does, and no throw when every element is mounted |
| LegacyStore.LReleaseMovesAtOnce | src/DragProvider.js:139-156 | a release over another container calls the source's `onRemove` then the target's `onAdd` with the dragged props, each only if it is a function; over the source or nothing, no call |
| LegacyStore.LEdgeIsOutside | src/DragProvider.js:125-137 | a release on a container's left or top edge reaches no container |
| LegacyStore.Preview | src/DragProvider.js:179-186 | the preview shows min(n, 3) ghosts from the front and the first item on top; it throws on an empty drag |
| Sites.KeepUnlisted | src/Components/UnassignedView.js:214-215 | a room is kept exactly when no payload entry has its id; nothing listed keeps everything, everything listed keeps nothing |
| Sites.KeepUnlistedKeepsOrder | src/Components/UnassignedView.js:214-215 | the filter keeps order: it distributes over concatenation |
| Sites.SiteReduce | src/Components/UnassignedView.js:206-220 | `siteReducer` throws exactly for an action type other than ADD and REMOVE |
| Sites.SiteReduceSemantics | src/App.js:325-339 | ADD appends one projected room per payload entry after the existing ones; REMOVE keeps exactly the rooms whose id is not named |
| Sites.AddThenRemove | src/Components/UnassignedView.js:209-215 | removing what was just added restores the list, when the added ids were new |
| Sites.AddThenRemoveDropsListed | src/Components/UnassignedView.js:60-69 | ADD then REMOVE of one payload on one list keeps exactly the rooms whose id the payload does not name: copies and originals alike go |
| Sites.FloorToFloorDropLosesRoom | src/Components/UnassignedView.js:105-116 | room 100 dropped from one floor list onto the other is gone from the room list |
| Sites.ConfirmThenAddKeepsDropped | src/Components/UnassignedView.js:62-65 | with `done()` run before ADD, every dropped room is in the list afterwards, the unnamed rooms stay, nothing else appears, and a list that did not hold the rooms just gains them at the end |
| Sites.UnassignedReleaseClearsIffConfirmed | src/DragSelectable/Providers/DragProvider.js:437-446 | a release onto the unassigned list, whose `onAdd` confirms at once, clears the selection when every source is registered, and otherwise throws before SET_SELECTED [] |
| Sites.GenSitesShape | src/Components/UnassignedView.js:192-203 | `genSites(n)`: n rooms, ids 0..n-1, floor groups alternating 0/1, the single room type, titles of a floor digit plus a zero-padded number, and no two titles alike |
| Sites.FirstRooms | src/App.js:311-323 | the first room is "100", the second "200", the 32nd "215" |
| Sites.UnassignedAcceptsAndConfirms | src/Components/UnassignedView.js:62-69 | a drop onto the unassigned list appends one room per offered item and, since it confirms at once, the sources remove exactly what was offered |
| Sites.AssignSelected | src/Components/UnassignedView.js:49-51 | the payload of `assignSelectedToWorker` is the selected items' props in selection order; it throws exactly when a selected key is unregistered |
| Sites.AssignDoneRemovesSelected | src/Components/UnassignedView.js:53-55 | its `done` removes exactly the rooms whose id belongs to a selected item |
| Workers.Merge | src/App.js:128-133 | `{...e, ...update}`: every field the update gives (id, name, `assigned`) replaces the worker's own, and every absent field keeps the worker's value |
| Workers.UpdateWorker | src/App.js:128-133 | `updateWorker`: the same number of workers in the same order; every worker with the id, duplicates included, becomes the merge of it with the update, and the others are unchanged |
| Workers.TotalAssignedConcat | src/App.js:124-126 | the total of assigned rooms adds up over a split of the worker list |
| Workers.UpdateAssignedTotal | src/App.js:124-133 | a new `assigned` list for one worker changes the total by exactly the length difference, and only that worker changes |
| Workers.RowDropCallbacks | src/App.js:263-276 | a row's `onAdd` appends the offered rooms and raises the total by their number; `onRemove` keeps exactly the unnamed rooms and lowers the total by what it dropped |
| Workers.DebugWorkersAdded | src/App.js:139-145 | the debug menu appends four workers with ids 0..3 and empty lists after the existing ones, and the total is unchanged |

## Left out

- DOM measurement (`getElPageRect`, `offsetTop`/`clientWidth`, scroll offsets) is not computed. Rectangles and mounted elements come in as the `Layout` input.
- The `console.log` for a null element is not modelled.
- Coordinates are integers. The code works on fractional pixel values (`pageX`, `getBoundingClientRect`). The hit tests only add, subtract and compare coordinates, and these behave the same over integers.
- The clock is the `now` parameter of `UpdateCollidingChildren`.
- React hooks, event-listener wiring, contexts and rendering are not modelled. This covers the ghost and marquee positions, `setPos` and `setEndPoint`, portals and `cloneElement`. Each handler is modelled over the store snapshot it reads.
- The `mouseup` listener of the selection controller, which dispatches END_SELECTION, is covered only by the reducer's END_SELECTION case.
- The element walk in `itemDragStart` (DragSelectableContainer.js:61-90) is reduced to an optional `Grab` input: the key and pointer offset of the item under the drag handle.
- MouseDownAction: a walk that finds no item counts as a throw. In the code, the walk does not advance past a node without `classList` (line 66), so on a real page it would spin instead.
- MouseDownAction: a found element that the store does not know yields `false` as the dragged key. That case is not modelled.
- Element identity is modelled by the container's ref. `ref.current` and the ref object are not told apart.
- The legacy store's `onMouseMove` highlight begin/end calls are not modelled (`src/DragProvider.js:107-123`); every caller passes empty handlers.
- The legacy reducer's focus payload is modelled as a number.
- Store.Reduce: REMOVE_CONTAINER_ITEM follows the corrected rule of the first finding (`RemoveOwnedItem`), not the shipped comparison (`RemoveContainerItemAsWritten`, a no-op for the numeric keys `DragItem.js` passes). So the model deletes an unmounting item, where the code keeps it and a later measurement meets its null element.
- ContainerInput.ContainerView.RegisterItems: the class keys its memo on the list of element keys, the corrected rule of the second finding. The shipped `childrenId` join is `MemoAsWritten`, so the class does not miss a change of children that joins to the same string.
- LegacyStore.LRegistryUpdates: it states that other records survive a registration only when refs are already unique. The reducer does not promise more.
- `src/DragSelectable.js`, `DragItem.js`, `SelectableContainer.js`, `AssignedView.js`, `DragSelectableTags.js` and `Styles.js` are not part of this model. The one `DragItem.js` dispatch that matters (REMOVE_CONTAINER_ITEM with a numeric id) appears under Findings.
- `AddWorkerDialog` with its random ids, and the random room-type choice in `genSites`, are not modelled. There is one room type.
- Memos keyed by joined strings are not modelled:
  - `selectedItems.join('')` at DragSelectableContainer.js:148;
  - the effect dependencies `itemsDep` and `selected.join('')` of the selection controller (DragProvider.js:259, 330).
  They can collide as in the second finding and leave a handler with a stale snapshot. Every handler here is modelled over the current store.

## Findings

| source | as written | input that shows it | evidently intended | confidence | as-written member | corrected member |
|---|---|---|---|---|---|---|
| src/DragSelectable/Providers/DragProvider.js:90-102 | REMOVE_CONTAINER_ITEM compares each entry key, a string from `Object.entries`, with `===` against the payload key. `DragItem.js:30` passes the numeric `props.id`, so nothing is ever removed | item 7 owned by container A; dispatch REMOVE_CONTAINER_ITEM `{key: 7, containerRef: A}`; item 7 stays registered | delete the entry with that key when the named container owns it | high; not executed | Store.RemoveContainerItemAsWrittenIsNoop | Store.RemoveOwnedItem |
| src/DragSelectable/DragSelectableContainer.js:31-44 | the registration memo is keyed by the child keys joined without a separator, so different child lists can share a memo key and skip re-registration | a container registered with children keyed [1, 13] re-renders with [11, 3]; both join to "113"; SET_CONTAINER_ITEMS is not dispatched and the store keeps items 1 and 13 | re-register whenever the list of child keys changes | high; not executed | ContainerInput.MemoAsWrittenMissesChange | ContainerInput.MemoKeepsStoreSynced |
| src/Components/UnassignedView.js:60-69 | both floor lists (lines 105-116) share one `onAdd`, which dispatches ADD and then calls `done()` at once, whose REMOVE runs on the same room list. REMOVE filters by id, so it drops the originals and the copies ADD just appended | room 100 on the first floor, dragged onto the second floor list: ADD appends a copy, REMOVE of id 0 deletes both, and the room list no longer holds room 100 | a drop between the floor lists keeps every dropped room in the list | medium; not executed | Sites.FloorToFloorDropLosesRoom | Sites.ConfirmThenAddKeepsDropped |
