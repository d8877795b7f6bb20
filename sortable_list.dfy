/** The state of one `SortableItems` list and the handlers that change it in
    place: the per-gesture working copy (`tempItems`), the rendered list
    (`currentItems`), the list last received from the host (`items`), and the
    rendered elements the handlers read and write through their references. */
module Sortable {
  import opened Records
  import opened Reorder

  class SortableList {
    /** The `items` the host passed in last. */
    var items: seq<Item>
    /** `tempItems.current`: the working copy the cascade edits. */
    var temp: seq<Item>
    /** `currentItems`: the list being rendered, one element per record. */
    var rendered: seq<Item>
    /** `refs.current`: the rendered elements, in document order. */
    var elements: seq<Element>

    /** First render: both lists are copies of `initial`, and every element
        shows its record's order. */
    constructor (initial: seq<Item>)
      ensures items == initial && temp == initial && rendered == initial
      ensures elements == Mount(initial)
    {
      items := initial;
      temp := initial;
      rendered := initial;
      elements := Mount(initial);
    }

    /** The effect run when the host's `items` change: when they differ from
        the working copy, the working copy and the rendered list are both
        reset to a copy sorted by order; otherwise nothing changes. */
    method ItemsChanged(incoming: seq<Item>)
      modifies this
      ensures items == incoming && elements == old(elements)
      ensures old(temp) == incoming ==> temp == old(temp) && rendered == old(rendered)
      ensures old(temp) != incoming ==> temp == SortByOrder(incoming) && rendered == SortByOrder(incoming)
      ensures old(temp) != incoming ==> SortedByOrder(temp) && multiset(temp) == multiset(incoming)
    {
      items := incoming;
      SortPermutes(incoming);
      if temp != incoming {
        temp := SortByOrder(incoming);
        rendered := SortByOrder(incoming);
      }
    }

    /** `handleDragStart` of element `k`: an attached element becomes the
        dragging one. */
    method StartDrag(k: nat)
      requires k < |elements|
      modifies this
      ensures elements == if old(elements[k].mounted) then old(elements)[k := old(elements[k]).(dragging := true)] else old(elements)
      ensures items == old(items) && temp == old(temp) && rendered == old(rendered)
    {
      if elements[k].mounted {
        elements := elements[k := elements[k].(dragging := true)];
      }
    }

    /** The `forEach` callback of `updateElementOrder` on element `k`:
        shifts the element when it was entered, then swaps the two records of
        the working copy and moves the dragging element's order along.
        `aborted` reports the `TypeError` raised when a record is not found. */
    method VisitElement(k: nat, prev: Option<int>, target: Option<int>, animated: bool) returns (aborted: bool)
      requires k < |elements|
      modifies this
      ensures Cascade(elements, temp, aborted) == Visit(Cascade(old(elements), old(temp), false), k, prev, target, animated)
      ensures items == old(items) && rendered == old(rendered)
    {
      aborted := false;
      var e := elements[k];
      if !e.mounted || e.dragging {
        return;
      }
      if !(e.order.Some? && target.Some? && e.order.value == target.value) {
        return;
      }
      var cur := e.order.value;
      var next := if prev.Some? && prev.value < cur then cur - 1 else cur + 1;
      var isAnimated := match e.offset
        case Cleared => true
        case Zero => false
        case _ => animated;
      var shift := if isAnimated then Zero else if prev.Some? && prev.value < cur then Up else Down;
      elements := elements[k := e.(order := Some(next), offset := shift)];
      var dragged := FindOrder(temp, prev);
      var current := FindOrder(temp, Some(cur));
      if dragged.None? {
        return true;
      }
      temp := temp[dragged.value := temp[dragged.value].(order := cur)];
      if current.None? {
        return true;
      }
      temp := temp[current.value := temp[current.value].(order := next)];
      var marked := FirstDragging(elements);
      if marked.Some? {
        elements := elements[marked.value := elements[marked.value].(order := Some(cur))];
      }
    }

    /** `updateElementOrder(prevIndex, draggedIndex)`: visits every element in
        document order; `animated[k]` is the host's verdict on element `k`'s
        current transform. A `TypeError` ends the loop and is reported in
        `aborted`. */
    method UpdateElementOrder(prev: Option<int>, target: Option<int>, animated: seq<bool>) returns (aborted: bool)
      requires |animated| == |elements|
      modifies this
      ensures Cascade(elements, temp, aborted) == Sweep(Cascade(old(elements), old(temp), false), prev, target, animated, |animated|)
      ensures items == old(items) && rendered == old(rendered)
    {
      ghost var start := Cascade(elements, temp, false);
      var n := |elements|;
      aborted := false;
      var k := 0;
      while k < n && !aborted
        invariant 0 <= k <= n == |elements| == |animated|
        invariant Cascade(elements, temp, aborted) == Sweep(start, prev, target, animated, k)
        invariant items == old(items) && rendered == old(rendered)
      {
        aborted := VisitElement(k, prev, target, animated[k]);
        k := k + 1;
      }
      if aborted {
        // the TypeError left the forEach: the remaining elements are not visited
        SweepStopped(start, prev, target, animated, k, n);
      }
    }

    /** `handleDragEnter` of element `t`. */
    method DragEnter(t: nat, animated: seq<bool>) returns (aborted: bool)
      requires t < |elements| && |animated| == |elements|
      modifies this
      ensures Cascade(elements, temp, aborted) == Enter(old(elements), old(temp), t, animated)
      ensures items == old(items) && rendered == old(rendered)
    {
      aborted := false;
      if elements[t].dragging {
        return;
      }
      var dragged := FirstDragging(elements);
      if dragged.None? {
        return;
      }
      var prev := elements[dragged.value].order;
      var target := if elements[t].mounted then elements[t].order else None;
      aborted := UpdateElementOrder(prev, target, animated);
    }

    /** The list's `dragend` handler: commits nothing when the working copy
        equals the host's list; otherwise hands the working copy to the
        commit callback and renders it sorted by order. */
    method DragEnd() returns (committed: Option<seq<Item>>)
      modifies this
      ensures committed == (if old(temp) == old(items) then None else Some(old(temp)))
      ensures rendered == (if committed.Some? then SortByOrder(old(temp)) else old(rendered))
      ensures committed.Some? ==> SortedByOrder(rendered) && multiset(rendered) == multiset(temp)
      ensures items == old(items) && temp == old(temp) && elements == old(elements)
    {
      if temp == items {
        return None;
      }
      committed := Some(temp);
      rendered := SortByOrder(temp);
      SortPermutes(temp);
    }

    /** An element's own `dragend` handler: an attached element loses the
        dragging marker and its transform. */
    method ItemDragEnd(k: nat)
      requires k < |elements|
      modifies this
      ensures elements == if old(elements[k].mounted) then old(elements)[k := old(elements[k]).(dragging := false, offset := Cleared)] else old(elements)
      ensures items == old(items) && temp == old(temp) && rendered == old(rendered)
    {
      if elements[k].mounted {
        elements := elements[k := elements[k].(dragging := false, offset := Cleared)];
      }
    }
  }
}
