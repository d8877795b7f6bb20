/** Whole gestures on a three-item list a:0, b:1, c:2, driven through the
    handlers of `SortableList` in the order the browser delivers them. Every
    element's own `dragend` handler runs before the list's. */
module Scenarios {
  import opened Records
  import opened Reorder
  import opened Sortable

  function Abc(): seq<Item> {
    [Item("a", 0), Item("b", 1), Item("c", 2)]
  }

  /** The host's `isAnimated` report for elements with a directional
      transform: false for each. In these gestures every entered element is
      crossed for the first time, from the empty transform, so the report is
      not consulted and the element is given `translateY(0)`. */
  function NoneReported(): seq<bool> {
    [false, false, false]
  }

  /** The `dragend` handler of each of the three elements, as the browser
      delivers them before the list's own. */
  method EndAll(list: SortableList)
    requires |list.elements| == 3
    modifies list
    ensures list.items == old(list.items) && list.temp == old(list.temp) && list.rendered == old(list.rendered)
    ensures |list.elements| == 3
    ensures forall k :: 0 <= k < 3 && old(list.elements[k]).mounted ==> !list.elements[k].dragging && list.elements[k].offset == Cleared
  {
    list.ItemDragEnd(0);
    list.ItemDragEnd(1);
    list.ItemDragEnd(2);
  }

  /** The elements of a:0, b:1, c:2 after `handleDragStart` on element `j`. */
  function DraggingAbc(j: nat): seq<Element>
    requires j < 3
  {
    [Element(true, j == 0, Some(0), Cleared), Element(true, j == 1, Some(1), Cleared), Element(true, j == 2, Some(2), Cleared)]
  }

  /** Three records whose orders ascend as y, z, x sort to y, z, x. */
  lemma SortThree(x: Item, y: Item, z: Item)
    requires y.order <= z.order < x.order
    ensures SortByOrder([x, y, z]) == [y, z, x]
  {
    assert [x, y, z][1..] == [y, z];
    assert [y, z][1..] == [z];
    assert [z][1..] == [];
    assert SortByOrder([z]) == [z];
    assert SortByOrder([y, z]) == [y, z];
    assert Insert(x, [z]) == [z, x];
    assert Insert(x, [y, z]) == [y] + Insert(x, [z]);
  }

  /** Three records whose orders ascend as x, z, y sort to x, z, y. */
  lemma SortThreeSwapped(x: Item, y: Item, z: Item)
    requires x.order <= z.order < y.order
    ensures SortByOrder([x, y, z]) == [x, z, y]
  {
    assert [x, y, z][1..] == [y, z];
    assert [y, z][1..] == [z];
    assert [z][1..] == [];
    assert SortByOrder([z]) == [z];
    assert Insert(y, [z]) == [z] + Insert(y, []) == [z, y];
    assert SortByOrder([y, z]) == [z, y];
    assert Insert(x, [z, y]) == [x, z, y];
  }

  /** Drag a (element 0) and enter b (element 1): a and b trade orders, and
      b's transform becomes `translateY(0)`. */
  lemma FirstEntersSecond()
    ensures Enter(DraggingAbc(0), Abc(), 1, NoneReported()) == Cascade(
      [Element(true, true, Some(1), Cleared), Element(true, false, Some(0), Zero), Element(true, false, Some(2), Cleared)],
      [Item("a", 1), Item("b", 0), Item("c", 2)], false)
  {
    EnterStep(DraggingAbc(0), Abc(), 0, 1, NoneReported());
  }

  /** Still dragging a, now at order 1, enter c (element 2): a and c trade
      orders, and c's transform becomes `translateY(0)`. */
  lemma FirstEntersThird()
    ensures var els := [Element(true, true, Some(1), Cleared), Element(true, false, Some(0), Zero), Element(true, false, Some(2), Cleared)];
      Enter(els, [Item("a", 1), Item("b", 0), Item("c", 2)], 2, NoneReported()) == Cascade(
        [Element(true, true, Some(2), Cleared), Element(true, false, Some(0), Zero), Element(true, false, Some(1), Zero)],
        [Item("a", 2), Item("b", 0), Item("c", 1)], false)
  {
    var els := [Element(true, true, Some(1), Cleared), Element(true, false, Some(0), Zero), Element(true, false, Some(2), Cleared)];
    EnterStep(els, [Item("a", 1), Item("b", 0), Item("c", 2)], 0, 2, NoneReported());
  }

  /** Drag a, enter b, enter c: the commit receives a:2, b:0, c:1, and the
      list renders b, c, a. */
  method DragFirstToLast() returns (committed: Option<seq<Item>>, shown: seq<Item>)
    ensures committed == Some([Item("a", 2), Item("b", 0), Item("c", 1)])
    ensures shown == [Item("b", 0), Item("c", 1), Item("a", 2)]
  {
    var list := new SortableList(Abc());
    list.StartDrag(0);
    assert list.elements == DraggingAbc(0);
    FirstEntersSecond();
    var _ := list.DragEnter(1, NoneReported());
    FirstEntersThird();
    var _ := list.DragEnter(2, NoneReported());
    EndAll(list);
    committed := list.DragEnd();
    SortThree(Item("a", 2), Item("b", 0), Item("c", 1));
    shown := list.rendered;
  }

  /** Drag c (element 2) and enter b (element 1): c and b trade orders, and
      b's transform becomes `translateY(0)`. */
  lemma LastEntersSecond()
    ensures Enter(DraggingAbc(2), Abc(), 1, NoneReported()) == Cascade(
      [Element(true, false, Some(0), Cleared), Element(true, false, Some(2), Zero), Element(true, true, Some(1), Cleared)],
      [Item("a", 0), Item("b", 2), Item("c", 1)], false)
  {
    EnterStep(DraggingAbc(2), Abc(), 2, 1, NoneReported());
  }

  /** Drag c, enter b: the commit receives a:0, b:2, c:1, and the list
      renders a, c, b. */
  method DragLastUpOne() returns (committed: Option<seq<Item>>, shown: seq<Item>)
    ensures committed == Some([Item("a", 0), Item("b", 2), Item("c", 1)])
    ensures shown == [Item("a", 0), Item("c", 1), Item("b", 2)]
  {
    var list := new SortableList(Abc());
    list.StartDrag(2);
    assert list.elements == DraggingAbc(2);
    LastEntersSecond();
    var _ := list.DragEnter(1, NoneReported());
    EndAll(list);
    committed := list.DragEnd();
    SortThreeSwapped(Item("a", 0), Item("b", 2), Item("c", 1));
    shown := list.rendered;
  }

  /** Drag a and release it without entering anything: nothing is committed
      and the rendered list is unchanged. */
  method ReleaseInPlace() returns (committed: Option<seq<Item>>, shown: seq<Item>)
    ensures committed == None
    ensures shown == Abc()
  {
    var list := new SortableList(Abc());
    list.StartDrag(0);
    EndAll(list);
    committed := list.DragEnd();
    shown := list.rendered;
  }

  /** Drag a, enter b, enter b again: the second enter undoes the first, so
      nothing is committed. */
  method EnterTwiceAndRelease() returns (committed: Option<seq<Item>>)
    ensures committed == None
  {
    var list := new SortableList(Abc());
    list.StartDrag(0);
    assert list.elements == DraggingAbc(0);
    ReenterRestores(list.elements, list.temp, 0, 1, NoneReported());
    var _ := list.DragEnter(1, NoneReported());
    var _ := list.DragEnter(1, NoneReported());
    EndAll(list);
    committed := list.DragEnd();
  }

  /** Drag a and enter c while a is still at order 0. */
  lemma FirstEntersThirdDirectly()
    ensures Enter(DraggingAbc(0), Abc(), 2, NoneReported()) == Cascade(
      [Element(true, true, Some(2), Cleared), Element(true, false, Some(1), Cleared), Element(true, false, Some(1), Zero)],
      [Item("a", 2), Item("b", 1), Item("c", 1)], false)
  {
    EnterStep(DraggingAbc(0), Abc(), 0, 2, NoneReported());
  }

  /** Drag a and enter c without b's enter being delivered: c takes order 1,
      which b still holds, so the committed orders are no longer 0..n-1. */
  method SkippedBoundary() returns (committed: Option<seq<Item>>)
    ensures committed == Some([Item("a", 2), Item("b", 1), Item("c", 1)])
    ensures !IsRanking(committed.value)
  {
    var list := new SortableList(Abc());
    list.StartDrag(0);
    assert list.elements == DraggingAbc(0);
    FirstEntersThirdDirectly();
    var _ := list.DragEnter(2, NoneReported());
    EndAll(list);
    committed := list.DragEnd();
    assert committed.value[1].order == committed.value[2].order;
  }

  /** The host sends a list in the middle of a gesture that differs from the
      working copy but keeps every id, so no element is unmounted: the working
      copy and the rendered list are reset to it, the dragging marker
      survives, and releasing then commits nothing. */
  method ItemsChangedMidGesture() returns (stillDragging: bool, committed: Option<seq<Item>>)
    ensures stillDragging
    ensures committed == None
  {
    var list := new SortableList(Abc());
    list.StartDrag(0);
    assert list.elements == DraggingAbc(0);
    FirstEntersSecond();
    var _ := list.DragEnter(1, NoneReported());
    assert list.temp != Abc() by { assert list.temp[0].order == 1; }
    assert SortedByOrder(Abc());
    SortedIsFixpoint(Abc());
    list.ItemsChanged(Abc());
    stillDragging := list.elements[0].dragging;
    committed := list.DragEnd();
  }

  /** a is dragging and b's `data-order` does not parse, while every record
      order is a number. The code reaches a NaN attribute only from a record
      whose own order is not a number, which integer orders cannot express, so
      this is a state of the elements alone. */
  function UnparsedB(): seq<Element> {
    [Element(true, true, Some(0), Cleared), Element(true, false, None, Cleared), Element(true, false, Some(2), Cleared)]
  }

  /** Entering b, whose order does not parse, shifts nothing: no element's
      order equals NaN. */
  lemma UnparsedNeighbourIgnored()
    ensures Enter(UnparsedB(), Abc(), 1, NoneReported()) == Cascade(UnparsedB(), Abc(), false)
  {
    var c := Cascade(UnparsedB(), Abc(), false);
    assert FirstDragging(UnparsedB()) == Some(0);
    forall k | 0 <= k < 3 ensures !Entered(UnparsedB()[k], None) { }
    SweepSingle(c, Some(0), None, NoneReported(), 3, 0);
  }

  /** Entering c next moves c to 1 and a to 2: b's element is left out of
      the cascade, and b's record is not touched. */
  lemma UnparsedNeighbourSkipped()
    ensures Enter(UnparsedB(), Abc(), 2, NoneReported()) == Cascade(
      [Element(true, true, Some(2), Cleared), Element(true, false, None, Cleared), Element(true, false, Some(1), Zero)],
      [Item("a", 2), Item("b", 1), Item("c", 1)], false)
  {
    EnterSkipsUnparsed(UnparsedB(), Abc(), 0, 2, 1, NoneReported());
  }

  /** The dragged element's `data-order` does not parse: entering b raises
      the `TypeError` after b's own attribute and transform were written, and
      the working copy is untouched. */
  lemma UnparsedDragged()
    ensures var els := [Element(true, true, None, Cleared), Element(true, false, Some(1), Cleared), Element(true, false, Some(2), Cleared)];
      var r := Enter(els, Abc(), 1, NoneReported());
      && r.aborted
      && r.temp == Abc()
      && r.elements == els[1 := Element(true, false, Some(2), Zero)]
  {
    var els := [Element(true, true, None, Cleared), Element(true, false, Some(1), Cleared), Element(true, false, Some(2), Cleared)];
    var c := Cascade(els, Abc(), false);
    assert FirstDragging(els) == Some(0);
    SweepSingle(c, None, Some(1), NoneReported(), 3, 1);
  }
}
