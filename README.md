# SortableItems reorder engine, modelled in Dafny

This project models the drag-to-reorder engine of the `SortableItems` React
component. The list renders one element per record `{id, order}`. While an
element is dragged, each `dragenter` on a neighbour runs one step of a
one-slot cascade:
- the neighbour's `data-order` attribute moves by one;
- the neighbour gets a new transform: up or down by one slot, or
  `translateY(0)` when the `isAnimated` test on its current transform holds;
- in the per-gesture working copy (`tempItems`), the dragged record and the
  entered record trade orders;
- the dragged element's `data-order` follows, so the next enter continues the
  cascade.

At `dragend` the working copy is handed to the commit callback, unless it
equals the list the host passed in. The rendered list then becomes the
working copy sorted by order. When the host passes a new list, an effect
rebuilds the working copy and the rendered list.

Modules:
- `Records` (records.dfy): the records and the per-element state. An element
  holds its attachment, its dragging marker, its `data-order` as `parseInt`
  reads it (`Option<int>`, where `None` is NaN) and its transform (an `Offset`:
  `Cleared` for the empty transform, `Zero` for `translateY(0)`, or `Up` or
  `Down` by one slot). The module also models the library calls the
  engine relies on: `find` by order, `querySelector('[data-dragging=true]')`,
  and the stable sort by order.
- `Reorder` (reorder.dfy): the specification of the cascade. `Visit` is one
  turn of the `forEach` in `updateElementOrder`. `Sweep` is the whole loop in
  document order. `Enter` is `handleDragEnter`. The module also holds the
  lemmas about them.
- `Sortable` (sortable_list.dfy): the class `SortableList`. Its fields are
  `items`, `temp` (`tempItems.current`), `rendered` (`currentItems`) and
  `elements` (`refs.current`). Its handlers change them in place. The loop of
  `updateElementOrder` is a `while` loop, proved equal to `Sweep`.
- `Scenarios` (scenarios.dfy): whole gestures on a:0, b:1, c:2, driven
  through the class's handlers, with what each one commits, plus the
  unparseable-attribute cases on the specification functions.

Behaviour of the code worth knowing:
- An enter is not idempotent. Entering the same neighbour again right away
  reverses the swap (`ReenterRestores`, `EnterTwiceAndRelease`).
- The orders stay a ranking 0..n-1 when each enter crosses one boundary
  (`AdjacentEnterSwaps`). An enter whose `dragenter` skipped a neighbour
  leaves two records with the same order (`SkippedBoundary`).
- An element whose `data-order` does not parse is never entered and is left
  out of the cascade (`EnterSkipsUnparsed`, `UnparsedNeighbourIgnored`).
- The `isAnimated` test (`!transform.includes('0px')`) holds for the empty
  transform. The browser reads `translateY(0)` back as `translateY(0px)`, so
  the test fails for it. Every element starts with the empty transform and
  gets it back at its own `dragend`. So a neighbour's first crossing in a
  gesture gives it `translateY(0)` and moves nothing up or down
  (`SweepFirstCrossing`, `EnterFirstCrossing`). Crossing the same neighbour
  again in the same gesture moves it down when the dragged element started
  above it, and up otherwise (`ReenterShifts`).
- A new host list in mid-gesture resets the working copy but does not end
  the drag. When the new list keeps the dragged record's id, its element
  stays mounted and the dragging marker survives (`ItemsChangedMidGesture`).
- Nothing stops a second element from being marked as dragging. The first
  marked element in document order is then the dragged one (`FirstDragging`).
- Transforms are reset by each element's own `dragend` handler
  (`ItemDragEnd`), not by the list's handler.
- When a `find` returns `undefined`, the next `.order` assignment raises a
  `TypeError`. This ends the `forEach`, and the writes made before it stay.
  The model reports it as `aborted` (`SweepWithUnparsedDragged`,
  `UnparsedDragged`).

Host inputs that are parameters of the model:
- `animated[k]` is the outcome of the `isAnimated` test on element `k` when
  its current transform is a directional one. Whether that text contains
  "0px" depends on the digits of the element's pixel height and of
  `spacing`. For the empty transform and for `translateY(0)` the model
  computes the test itself (`IsAnimated`).
- An element's attachment (`ref.current` being set) is the `mounted` field.

## Model

| member | source | states |
|---|---|---|
| Records.FindOrder | frontend/components/SortableItems.tsx:64-65 | returns the first index whose order equals the given order, or None exactly when no record has it; NaN matches nothing |
| Records.FirstDragging | frontend/components/SortableItems.tsx:189-191 | returns the first attached element marked as dragging, or None exactly when there is none |
| Records.Insert | frontend/components/SortableItems.tsx:78 | inserting into a list ascending by order keeps it ascending, makes it one record longer, and the result starts with the inserted record or with the list's first record |
| Records.SortByOrder | frontend/components/SortableItems.tsx:85-86 | the sorted copy is ascending by order and has the input's length |
| Records.InsertAdds | frontend/components/SortableItems.tsx:78 | inserting adds exactly the one record to the multiset of records |
| Records.SortPermutes | frontend/components/SortableItems.tsx:85-86 | the sorted copy holds exactly the records of the input (same multiset) |
| Records.SortedIsFixpoint | frontend/components/SortableItems.tsx:85-86 | sorting a list already ascending by order returns it unchanged |
| Records.Mount | frontend/components/SortableItems.tsx:216-222 | the first render has one element per record, attached, not dragging, untransformed, showing its record's order |
| Records.SortIsIdempotent | frontend/components/SortableItems.tsx:85-86 | sorting the sorted copy again changes nothing |
| Reorder.MarkDragged | frontend/components/SortableItems.tsx:70-72 | writing the dragged element's order changes no attachment, marker or transform and no element that is not dragging; a dragging element keeps its order or takes the given one |
| Reorder.Visit | frontend/components/SortableItems.tsx:25-72 | an element that is skipped, or that is visited after the TypeError, leaves the state unchanged; an entered element, when the visit completes, gets order one below or one above the entered order, and the transform translateY(0) when the isAnimated test holds on its current transform (the empty one holds, translateY(0) fails), else up or down to match |
| Reorder.VisitFrame | frontend/components/SortableItems.tsx:25-72 | a visit touches only the visited element and the dragging element's order, never an attachment, a marker or another element's transform; with NaN as the dragged order the working copy is unchanged and the visit aborts exactly on an entered element |
| Reorder.VisitKeepsMarkers | frontend/components/SortableItems.tsx:25-72 | a visit never changes an element's attachment or dragging marker |
| Reorder.VisitKeepsTransforms | frontend/components/SortableItems.tsx:47-52 | a visit writes no element's transform except the visited element's |
| Reorder.VisitFirstCrossing | frontend/components/SortableItems.tsx:43-52 | from the empty transform, an entered element is given translateY(0) unless the TypeError was already raised, and any other element keeps the empty transform |
| Reorder.Sweep | frontend/components/SortableItems.tsx:24-73 | the loop keeps the lengths of elements and working copy, and after the TypeError is the identity |
| Reorder.Enter | frontend/components/SortableItems.tsx:185-199 | the drag-enter handler keeps the lengths of elements and working copy |
| Reorder.SweepKeepsMarkers | frontend/components/SortableItems.tsx:24-73 | the loop never changes an element's attachment or dragging marker |
| Reorder.SweepSparesDragging | frontend/components/SortableItems.tsx:25-72 | the dragging element is never shifted: its transform is unchanged and its order is unchanged or becomes the entered order |
| Reorder.SweepSparesOthers | frontend/components/SortableItems.tsx:35-40 | an element that is not dragging and whose order is not the entered one keeps its order and transform |
| Reorder.SweepBefore | frontend/components/SortableItems.tsx:24 | non-dragging elements not yet visited, in document order, are unchanged |
| Reorder.SweepFirstCrossing | frontend/components/SortableItems.tsx:43-52 | from all-empty transforms, no element is moved up or down: only a visited, entered element is given translateY(0), and each entered element is given it when the loop completes |
| Reorder.SweepOnlyEnteredZero | frontend/components/SortableItems.tsx:43-52 | from all-empty transforms, every transform stays empty or becomes translateY(0), and only at a visited, entered element |
| Reorder.SweepShiftsEntered | frontend/components/SortableItems.tsx:44-61 | direction rule: an entered element ends at entered order minus 1 if the dragged order is smaller, else plus 1, with an Up or Down transform, or translateY(0) when the isAnimated test holds on its current transform (the empty one holds, translateY(0) fails) |
| Reorder.SweepWithUnparsedDragged | frontend/components/SortableItems.tsx:64-66 | with NaN as the dragged order the working copy is never changed, and the loop aborts exactly when some visited element was entered |
| Reorder.SweepStopped | frontend/components/SortableItems.tsx:64-67 | after the TypeError no further element is visited |
| Reorder.SweepSingle | frontend/components/SortableItems.tsx:36-40 | when only one element is entered, the loop's effect is that element's visit |
| Reorder.EnterOnly | frontend/components/SortableItems.tsx:64-72 | with one entered element and both finds succeeding, the dragged record takes the entered order, the entered record takes the shifted order, and the dragging element takes the entered order |
| Reorder.FirstDraggingIs | frontend/components/SortableItems.tsx:189 | an attached dragging element with no such element before it is the one the query finds |
| Reorder.MarkAfterShift | frontend/components/SortableItems.tsx:70-72 | after a non-dragging element is written, moving the dragged order changes exactly the element the query found before |
| Reorder.EnterStep | frontend/components/SortableItems.tsx:185-199 | when every element shows its record's distinct order and one element is dragging, an enter changes exactly the dragged and entered records and elements, as stated |
| Reorder.EnterSkipsUnparsed | frontend/components/SortableItems.tsx:31-40 | an element whose order does not parse is left out of the cascade: the enter changes only the dragged and entered records and elements, as for EnterStep |
| Reorder.AdjacentEnterSwaps | frontend/components/SortableItems.tsx:64-67 | an enter across one boundary swaps the two records' orders, keeps elements in step with records and a single dragging element, and keeps the orders a ranking 0..n-1 |
| Reorder.ReenterRestores | frontend/components/SortableItems.tsx:56-67 | entering the same neighbour twice in a row restores the working copy and every element's order |
| Reorder.ReenterShifts | frontend/components/SortableItems.tsx:43-52 | crossing the same neighbour twice from the empty transform: the first crossing gives it translateY(0), the second moves it down when the dragged order was below it and up otherwise |
| Reorder.DraggingEnterIgnored | frontend/components/SortableItems.tsx:186 | the dragging element's own drag-enter changes nothing |
| Reorder.EnterFirstCrossing | frontend/components/SortableItems.tsx:43-45 | with every transform empty, an enter moves no neighbour up or down: only an element carrying the entered order is given translateY(0), every other transform stays empty |
| Reorder.MountSynced | frontend/components/SortableItems.tsx:216-222 | the first render of records with distinct orders shows each record's order on its element, and no element is dragging |
| Sortable.SortableList.constructor | frontend/components/SortableItems.tsx:16-18 | working copy and rendered list start as copies of the host's items, and every element shows its item's order, undragged and untransformed |
| Sortable.SortableList.ItemsChanged | frontend/components/SortableItems.tsx:82-87 | when the incoming list differs from the working copy, both the working copy and the rendered list become it sorted by order, and they are a sorted permutation of it; otherwise nothing changes |
| Sortable.SortableList.StartDrag | frontend/components/SortableItems.tsx:147-152 | an attached element becomes marked as dragging; nothing else changes |
| Sortable.SortableList.VisitElement | frontend/components/SortableItems.tsx:25-72 | the callback body changes elements and working copy exactly as Visit |
| Sortable.SortableList.UpdateElementOrder | frontend/components/SortableItems.tsx:23-74 | the loop changes elements and working copy exactly as Sweep over all elements, stopping at the TypeError |
| Sortable.SortableList.DragEnter | frontend/components/SortableItems.tsx:185-199 | the handler changes elements and working copy exactly as Enter |
| Sortable.SortableList.DragEnd | frontend/components/SortableItems.tsx:75-80 | commits nothing when the working copy equals the host's list; otherwise commits the working copy and renders it sorted ascending by order, as a permutation |
| Sortable.SortableList.ItemDragEnd | frontend/components/SortableItems.tsx:134-146 | an attached element loses its dragging marker and its transform |
| Scenarios.SortThree | frontend/components/SortableItems.tsx:78 | three records with orders ascending as second, third, first are sorted into that order |
| Scenarios.SortThreeSwapped | frontend/components/SortableItems.tsx:78 | three records with orders ascending as first, third, second are sorted into that order |
| Scenarios.FirstEntersSecond | frontend/components/SortableItems.tsx:185-199 | dragging a and entering b gives a:1, b:0, with b's attribute 0 and b's transform translateY(0) |
| Scenarios.FirstEntersThird | frontend/components/SortableItems.tsx:185-199 | continuing to c gives a:2, b:0, c:1, with c's attribute 1 and c's transform translateY(0) |
| Scenarios.DragFirstToLast | frontend/components/SortableItems.tsx:75-80 | drag a, enter b, enter c: commits a:2, b:0, c:1 and renders b, c, a |
| Scenarios.LastEntersSecond | frontend/components/SortableItems.tsx:185-199 | dragging c and entering b gives b:2, c:1, with b's attribute 2 and b's transform translateY(0) |
| Scenarios.DragLastUpOne | frontend/components/SortableItems.tsx:56-67 | drag c, enter b: commits a:0, b:2, c:1 and renders a, c, b |
| Scenarios.ReleaseInPlace | frontend/components/SortableItems.tsx:75-76 | drag a and release without any enter: nothing is committed and the rendered list is unchanged |
| Scenarios.EnterTwiceAndRelease | frontend/components/SortableItems.tsx:56-67 | drag a, enter b twice, release: nothing is committed |
| Scenarios.FirstEntersThirdDirectly | frontend/components/SortableItems.tsx:64-67 | dragging a and entering c first gives a:2, b:1, c:1 |
| Scenarios.SkippedBoundary | frontend/components/SortableItems.tsx:64-67 | when b's enter is skipped, the commit holds a:2, b:1, c:1, which is not a ranking |
| Scenarios.ItemsChangedMidGesture | frontend/components/SortableItems.tsx:82-87 | after one enter, the host re-sending a, b, c (same ids) resets the working copy, the dragging marker stays set, and the release commits nothing |
| Scenarios.UnparsedNeighbourIgnored | frontend/components/SortableItems.tsx:31-36 | entering a neighbour whose order does not parse changes nothing |
| Scenarios.UnparsedNeighbourSkipped | frontend/components/SortableItems.tsx:64-67 | with b's attribute unparseable, dragging a into c writes a:2 and c:1, gives c translateY(0), and leaves b's element and record untouched |
| Scenarios.UnparsedDragged | frontend/components/SortableItems.tsx:190-198 | with the dragged element's attribute unparseable, entering b aborts after b's attribute and transform were written, and the working copy is unchanged |

## Left out

- DOM event wiring: the `addEventListener` and `removeEventListener` calls,
  `useImperativeHandle`, `React.memo` and the context. The handlers are
  methods that the scenarios call in the order the browser would call them.
- React state and re-rendering. `dragging.current` and the `data-dragging`
  attribute (set through `beingDragged`) are one flag, set when the state
  updates. The elements are built from the records once, at the first render
  (`SortableList.constructor`). Later renders after a commit or a reset, which
  rewrite attributes from `currentItems`, are not modelled.
- Aliasing of record objects. After a commit, the rendered list and the
  commit callback's argument share record objects with the working copy. The
  model works on values, so later in-place edits do not show through them.
- `handleDragStart` and `handleDrag`: the pointer-translation arithmetic on
  floating-point coordinates, `getBoundingClientRect`, and `pointerEvents`.
  The model keeps only the dragging marker.
- The `isAnimated` test on a directional transform, because whether its text
  contains "0px" depends on the digits of the element's pixel height and of
  `spacing`. It is the host-supplied `animated` parameter. On the empty
  transform the test is computed and holds. On `translateY(0)` it is computed
  and fails, which relies on the browser serialising `translateY(0)` as
  `translateY(0px)`. The pixel height and `spacing` in the transforms are
  reduced to the direction `Up` or `Down`.
- Item.order is an integer, so a record whose order is not a number is not
  modelled. In the code, an element's `data-order` is NaN only for such a
  record. The lemmas with an unparseable attribute (`EnterSkipsUnparsed`,
  `UnparsedNeighbourIgnored`, `UnparsedNeighbourSkipped`, `UnparsedDragged`)
  pair it with an integer record, a state of the elements the code does not
  reach. They state only how the handlers treat the attribute.
- `document.querySelector` searches the whole document. The model searches
  only this list's elements (`FirstDragging`), so a marked element of another
  list or elsewhere on the page is not modelled.
- `JSON.stringify` equality, which is modelled as structural equality of the
  record sequences, and `console.log`.
- `getReference` ref bookkeeping.
- The `=== null` guards after `parseInt`. They can never fire, so only the
  NaN case (`None`) is modelled.
- Item payloads, and the host components in the other files: the admin
  links list with its network calls, the user item and banner views, and the
  input field.
- Records.SortByOrder: stability is built into the definition, and no lemma
  states it.
