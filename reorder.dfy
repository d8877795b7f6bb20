/** The one-slot cascade: `updateElementOrder` visiting every element once,
    and `handleDragEnter` choosing its two arguments. The functions here are
    the specification the imperative `SortableList` is proved against. */
module Reorder {
  import opened Records

  /** The state one cascade step works on: the elements, the working copy, and
      whether the step stopped on a `TypeError` (a `find` that returned
      `undefined` and was then dereferenced). */
  datatype Cascade = Cascade(elements: seq<Element>, temp: seq<Item>, aborted: bool)

  /** `prevIndex < currentIndex`: the dragged element sits above this one. A
      NaN on either side compares false. */
  predicate Above(prev: Option<int>, cur: int) {
    prev.Some? && prev.value < cur
  }

  /** The new `data-order` of an entered element: one less when the dragged
      element is above, one more otherwise. */
  function Shifted(prev: Option<int>, cur: int): int {
    if Above(prev, cur) then cur - 1 else cur + 1
  }

  /** `isAnimated`, the test `!transform.includes('0px')` on an element's
      current transform as the browser reads it back. The empty transform
      contains no "0px", so the test holds. The browser serialises
      `translateY(0)` as `translateY(0px)`, so the test fails. Whether the
      text of a directional transform contains "0px" depends on the digits of
      the element's pixel height and of the spacing, so for `Up` and `Down`
      the outcome is the host's report `reported`. */
  predicate IsAnimated(current: Offset, reported: bool) {
    match current
    case Cleared => true
    case Zero => false
    case _ => reported
  }

  /** The transform given to an entered element: `translateY(0)` when
      `animated` holds, else up when the dragged element is above and down
      otherwise. */
  function OffsetFor(prev: Option<int>, cur: int, animated: bool): Offset {
    if animated then Zero else if Above(prev, cur) then Up else Down
  }

  /** The element passes every guard of the loop body: it is attached, not
      the dragging one, and its parsed order equals the entered order. */
  predicate Entered(e: Element, target: Option<int>) {
    e.mounted && !e.dragging && e.order.Some? && target.Some? && e.order.value == target.value
  }

  /** Sets the `data-order` of the element `querySelector` finds as dragging. */
  function MarkDragged(els: seq<Element>, o: int): (r: seq<Element>)
    ensures |r| == |els|
    ensures forall i :: 0 <= i < |els| ==> r[i].mounted == els[i].mounted && r[i].dragging == els[i].dragging && r[i].offset == els[i].offset
    ensures forall i :: 0 <= i < |els| && !els[i].dragging ==> r[i] == els[i]
    ensures forall i :: 0 <= i < |els| && els[i].dragging ==> r[i].order == els[i].order || r[i].order == Some(o)
  {
    match FirstDragging(els)
    case None => els
    case Some(j) => els[j := els[j].(order := Some(o))]
  }

  /** One turn of the `forEach` in `updateElementOrder` on element `k`. */
  function Visit(c: Cascade, k: nat, prev: Option<int>, target: Option<int>, animated: bool): (r: Cascade)
    requires k < |c.elements|
    ensures |r.elements| == |c.elements| && |r.temp| == |c.temp|
    ensures c.aborted || !Entered(c.elements[k], target) ==> r == c
    ensures !r.aborted && Entered(c.elements[k], target) ==>
      r.elements[k] == c.elements[k].(order := Some(Shifted(prev, target.value)), offset := OffsetFor(prev, target.value, IsAnimated(c.elements[k].offset, animated)))
  {
    var e := c.elements[k];
    if c.aborted || !Entered(e, target) then c
    else
      var cur := e.order.value;
      var next := Shifted(prev, cur);
      var els := c.elements[k := e.(order := Some(next), offset := OffsetFor(prev, cur, IsAnimated(e.offset, animated)))];
      match FindOrder(c.temp, prev)
      case None => Cascade(els, c.temp, true)
      case Some(d) =>
        var t := c.temp[d := c.temp[d].(order := cur)];
        match FindOrder(c.temp, Some(cur))
        case None => Cascade(els, t, true)
        case Some(m) => Cascade(MarkDragged(els, cur), t[m := t[m].(order := next)], false)
  }

  /** What one visit leaves alone: every element's attachment and marker,
      every other element's transform, every other element that is not
      dragging, and a dragging element's order except for the entered
      order. With an unparsed dragged order the working copy is untouched and
      the visit stops exactly on an entered element. */
  lemma VisitFrame(c: Cascade, k: nat, prev: Option<int>, target: Option<int>, animated: bool)
    requires k < |c.elements|
    ensures var r := Visit(c, k, prev, target, animated);
      && (forall i :: 0 <= i < |c.elements| ==> r.elements[i].mounted == c.elements[i].mounted && r.elements[i].dragging == c.elements[i].dragging)
      && (forall i :: 0 <= i < |c.elements| && i != k ==> r.elements[i].offset == c.elements[i].offset)
      && (forall i :: 0 <= i < |c.elements| && i != k && !c.elements[i].dragging ==> r.elements[i] == c.elements[i])
      && (forall i :: 0 <= i < |c.elements| && c.elements[i].dragging ==> r.elements[i].order == c.elements[i].order || r.elements[i].order == target)
    ensures prev.None? ==> var r := Visit(c, k, prev, target, animated);
      r.temp == c.temp && (r.aborted <==> c.aborted || Entered(c.elements[k], target))
  {
  }

  /** A visit never attaches, detaches, marks or unmarks an element. */
  lemma VisitKeepsMarkers(c: Cascade, k: nat, prev: Option<int>, target: Option<int>, animated: bool)
    requires k < |c.elements|
    ensures var r := Visit(c, k, prev, target, animated);
      forall i :: 0 <= i < |c.elements| ==> r.elements[i].mounted == c.elements[i].mounted && r.elements[i].dragging == c.elements[i].dragging
  {
    VisitFrame(c, k, prev, target, animated);
  }

  /** A visit writes no transform but element `k`'s. */
  lemma VisitKeepsTransforms(c: Cascade, k: nat, prev: Option<int>, target: Option<int>, animated: bool)
    requires k < |c.elements|
    ensures var r := Visit(c, k, prev, target, animated);
      forall i :: 0 <= i < |c.elements| && i != k ==> r.elements[i].offset == c.elements[i].offset
  {
    VisitFrame(c, k, prev, target, animated);
  }

  /** The first crossing of an element whose transform is empty: the test
      `isAnimated` holds on it, so when it is entered it is given
      `translateY(0)`, and otherwise its transform stays empty. */
  lemma VisitFirstCrossing(c: Cascade, k: nat, prev: Option<int>, target: Option<int>, animated: bool)
    requires k < |c.elements| && c.elements[k].offset == Cleared
    ensures Visit(c, k, prev, target, animated).elements[k].offset == (if !c.aborted && Entered(c.elements[k], target) then Zero else Cleared)
  {
  }

  /** The first `n` turns of the `forEach`, in document order. */
  function Sweep(c: Cascade, prev: Option<int>, target: Option<int>, animated: seq<bool>, n: nat): (r: Cascade)
    requires n <= |c.elements| && |c.elements| == |animated|
    ensures |r.elements| == |c.elements| && |r.temp| == |c.temp|
    ensures c.aborted ==> r == c
    decreases n
  {
    if n == 0 then c
    else Visit(Sweep(c, prev, target, animated, n - 1), n - 1, prev, target, animated[n - 1])
  }

  /** `handleDragEnter` on element `t`: ignored on the dragging element and
      when no element is marked as dragging; otherwise `updateElementOrder`
      with the dragged element's order and `t`'s own order. */
  function Enter(els: seq<Element>, temp: seq<Item>, t: nat, animated: seq<bool>): (r: Cascade)
    requires t < |els| && |animated| == |els|
    ensures |r.elements| == |els| && |r.temp| == |temp|
  {
    var start := Cascade(els, temp, false);
    if els[t].dragging then start
    else match FirstDragging(els)
      case None => start
      case Some(j) => Sweep(start, els[j].order, if els[t].mounted then els[t].order else None, animated, |els|)
  }

  // ---------------------------------------------------------------------
  // What one sweep does to each element

  /** A sweep never attaches, detaches, marks or unmarks an element. */
  lemma {:induction false} SweepKeepsMarkers(c: Cascade, prev: Option<int>, target: Option<int>, animated: seq<bool>, n: nat)
    requires n <= |c.elements| && |c.elements| == |animated|
    ensures var r := Sweep(c, prev, target, animated, n);
      forall i :: 0 <= i < |c.elements| ==> r.elements[i].mounted == c.elements[i].mounted && r.elements[i].dragging == c.elements[i].dragging
  {
    if n > 0 {
      SweepKeepsMarkers(c, prev, target, animated, n - 1);
      VisitKeepsMarkers(Sweep(c, prev, target, animated, n - 1), n - 1, prev, target, animated[n - 1]);
    }
  }

  /** The dragging element is never shifted: its transform is left alone, and
      its order either stays or becomes the entered order. */
  lemma {:induction false} SweepSparesDragging(c: Cascade, prev: Option<int>, target: Option<int>, animated: seq<bool>, n: nat, k: nat)
    requires n <= |c.elements| && |c.elements| == |animated|
    requires k < |c.elements| && c.elements[k].dragging
    ensures Sweep(c, prev, target, animated, n).elements[k].offset == c.elements[k].offset
    ensures var o := Sweep(c, prev, target, animated, n).elements[k].order; o == c.elements[k].order || o == target
  {
    if n > 0 {
      SweepSparesDragging(c, prev, target, animated, n - 1, k);
      SweepKeepsMarkers(c, prev, target, animated, n - 1);
      var before := Sweep(c, prev, target, animated, n - 1);
      VisitFrame(before, n - 1, prev, target, animated[n - 1]);
      assert before.elements[k].dragging;
    }
  }

  /** An element that is not dragging and was not entered keeps its order and
      its transform. */
  lemma {:induction false} SweepSparesOthers(c: Cascade, prev: Option<int>, target: Option<int>, animated: seq<bool>, n: nat, k: nat)
    requires n <= |c.elements| && |c.elements| == |animated|
    requires k < |c.elements| && !c.elements[k].dragging && !Entered(c.elements[k], target)
    ensures Sweep(c, prev, target, animated, n).elements[k] == c.elements[k]
  {
    if n > 0 {
      SweepSparesOthers(c, prev, target, animated, n - 1, k);
      var before := Sweep(c, prev, target, animated, n - 1);
      VisitFrame(before, n - 1, prev, target, animated[n - 1]);
    }
  }

  /** An element that has not been visited yet is as it was. */
  lemma {:induction false} SweepBefore(c: Cascade, prev: Option<int>, target: Option<int>, animated: seq<bool>, n: nat, k: nat)
    requires n <= k < |c.elements| && |c.elements| == |animated|
    requires !c.elements[k].dragging
    ensures Sweep(c, prev, target, animated, n).elements[k] == c.elements[k]
  {
    if n > 0 {
      SweepBefore(c, prev, target, animated, n - 1, k);
      var before := Sweep(c, prev, target, animated, n - 1);
      VisitFrame(before, n - 1, prev, target, animated[n - 1]);
    }
  }

  /** A sweep over elements whose transforms are all empty is every entered
      element's first crossing: no element is moved up or down, an element
      is given `translateY(0)` only when it was visited and entered, and
      every entered element is given it when the sweep completes. */
  lemma {:induction false} SweepFirstCrossing(c: Cascade, prev: Option<int>, target: Option<int>, animated: seq<bool>, n: nat)
    requires n <= |c.elements| && |c.elements| == |animated|
    requires forall i :: 0 <= i < |c.elements| ==> c.elements[i].offset == Cleared
    ensures forall i :: 0 <= i < |c.elements| ==> Sweep(c, prev, target, animated, n).elements[i].offset in {Cleared, Zero}
    ensures forall i :: 0 <= i < |c.elements| && Sweep(c, prev, target, animated, n).elements[i].offset == Zero ==> i < n && Entered(c.elements[i], target)
    ensures forall i :: 0 <= i < n && Entered(c.elements[i], target) && !Sweep(c, prev, target, animated, n).aborted ==> Sweep(c, prev, target, animated, n).elements[i].offset == Zero
  {
    SweepOnlyEnteredZero(c, prev, target, animated, n);
    forall i | 0 <= i < n && Entered(c.elements[i], target) && !Sweep(c, prev, target, animated, n).aborted
      ensures Sweep(c, prev, target, animated, n).elements[i].offset == Zero
    {
      SweepShiftsEntered(c, prev, target, animated, n, i);
    }
  }

  /** The inductive half of `SweepFirstCrossing`: from empty transforms, a
      visited and entered element is the only one that may leave it, and only
      for `translateY(0)`. */
  lemma {:induction false} SweepOnlyEnteredZero(c: Cascade, prev: Option<int>, target: Option<int>, animated: seq<bool>, n: nat)
    requires n <= |c.elements| && |c.elements| == |animated|
    requires forall i :: 0 <= i < |c.elements| ==> c.elements[i].offset == Cleared
    ensures forall i :: 0 <= i < |c.elements| ==> Sweep(c, prev, target, animated, n).elements[i].offset in {Cleared, Zero}
    ensures forall i :: 0 <= i < |c.elements| && Sweep(c, prev, target, animated, n).elements[i].offset == Zero ==> i < n && Entered(c.elements[i], target)
  {
    if n > 0 {
      SweepOnlyEnteredZero(c, prev, target, animated, n - 1);
      var before := Sweep(c, prev, target, animated, n - 1);
      var r := Visit(before, n - 1, prev, target, animated[n - 1]);
      assert r == Sweep(c, prev, target, animated, n);
      VisitKeepsTransforms(before, n - 1, prev, target, animated[n - 1]);
      assert before.elements[n - 1].offset == Cleared;
      VisitFirstCrossing(before, n - 1, prev, target, animated[n - 1]);
      if c.elements[n - 1].dragging {
        SweepKeepsMarkers(c, prev, target, animated, n - 1);
        assert !Entered(before.elements[n - 1], target);
      } else {
        SweepBefore(c, prev, target, animated, n - 1, n - 1);
      }
    }
  }

  /** Direction rule: when the sweep completes, an entered element's order is
      exactly one less than the entered order if the dragged order is below
      it and exactly one more otherwise, and its transform shifts up or down
      accordingly (`translateY(0)` when the test `isAnimated` holds). */
  lemma {:induction false} SweepShiftsEntered(c: Cascade, prev: Option<int>, target: Option<int>, animated: seq<bool>, n: nat, k: nat)
    requires n <= |c.elements| && |c.elements| == |animated|
    requires k < n && Entered(c.elements[k], target)
    requires !Sweep(c, prev, target, animated, n).aborted
    ensures var e := Sweep(c, prev, target, animated, n).elements[k];
      e == c.elements[k].(order := Some(Shifted(prev, target.value)), offset := OffsetFor(prev, target.value, IsAnimated(c.elements[k].offset, animated[k])))
    ensures Shifted(prev, target.value) == (if prev.Some? && prev.value < target.value then target.value - 1 else target.value + 1)
  {
    var before := Sweep(c, prev, target, animated, n - 1);
    assert !before.aborted;
    if k == n - 1 {
      SweepBefore(c, prev, target, animated, n - 1, k);
      assert Entered(before.elements[k], target);
    } else {
      SweepShiftsEntered(c, prev, target, animated, n - 1, k);
      SweepKeepsMarkers(c, prev, target, animated, n - 1);
      VisitFrame(before, n - 1, prev, target, animated[n - 1]);
      assert !before.elements[k].dragging;
    }
  }

  /** When the dragged element's order does not parse, the first entered
      element makes `find` return `undefined`: the sweep stops with the
      working copy untouched, and it stops exactly when some element among
      those visited was entered. */
  lemma {:induction false} SweepWithUnparsedDragged(c: Cascade, target: Option<int>, animated: seq<bool>, n: nat)
    requires n <= |c.elements| && |c.elements| == |animated|
    requires !c.aborted
    ensures Sweep(c, None, target, animated, n).temp == c.temp
    ensures Sweep(c, None, target, animated, n).aborted <==> exists k :: 0 <= k < n && Entered(c.elements[k], target)
  {
    if n > 0 {
      SweepWithUnparsedDragged(c, target, animated, n - 1);
      var before := Sweep(c, None, target, animated, n - 1);
      VisitFrame(before, n - 1, None, target, animated[n - 1]);
      if !before.aborted {
        if c.elements[n - 1].dragging {
          SweepKeepsMarkers(c, None, target, animated, n - 1);
          assert !Entered(before.elements[n - 1], target);
        } else {
          SweepBefore(c, None, target, animated, n - 1, n - 1);
        }
      }
    }
  }

  /** Once the `TypeError` has been raised no further element is visited. */
  lemma {:induction false} SweepStopped(c: Cascade, prev: Option<int>, target: Option<int>, animated: seq<bool>, k: nat, n: nat)
    requires k <= n <= |c.elements| && |c.elements| == |animated|
    requires Sweep(c, prev, target, animated, k).aborted
    ensures Sweep(c, prev, target, animated, n) == Sweep(c, prev, target, animated, k)
    decreases n
  {
    if n > k {
      SweepStopped(c, prev, target, animated, k, n - 1);
    }
  }

  /** When only element `t` is entered, the sweep is the single visit of `t`. */
  lemma {:induction false} SweepSingle(c: Cascade, prev: Option<int>, target: Option<int>, animated: seq<bool>, n: nat, t: nat)
    requires n <= |c.elements| && |c.elements| == |animated|
    requires t < |c.elements|
    requires forall k :: 0 <= k < |c.elements| && k != t ==> !Entered(c.elements[k], target)
    ensures Sweep(c, prev, target, animated, n) == if n <= t then c else Visit(c, t, prev, target, animated[t])
  {
    if n > 0 {
      SweepSingle(c, prev, target, animated, n - 1, t);
      if n - 1 > t {
        var v := Visit(c, t, prev, target, animated[t]);
        var k := n - 1;
        VisitFrame(c, t, prev, target, animated[t]);
        if c.elements[k].dragging {
          assert v.elements[k].dragging;
        } else {
          assert v.elements[k] == c.elements[k];
        }
        assert !Entered(v.elements[k], target);
      }
    }
  }

  /** An enter where only element `t` passes the guards and both `find`
      calls succeed: record `d` (holding the dragged order) takes `t`'s order
      `q`, record `m` (holding `q`) takes the shifted order, `t` is shifted,
      and the dragging element takes `q`. */
  lemma EnterOnly(els: seq<Element>, temp: seq<Item>, t: nat, animated: seq<bool>, j: nat, d: nat, m: nat)
    requires t < |els| && |animated| == |els|
    requires FirstDragging(els) == Some(j) && Entered(els[t], els[t].order)
    requires forall k :: 0 <= k < |els| && k != t ==> !Entered(els[k], els[t].order)
    requires FindOrder(temp, els[j].order) == Some(d) && FindOrder(temp, els[t].order) == Some(m)
    ensures var p, q := els[j].order, els[t].order.value;
      var moved := temp[d := temp[d].(order := q)];
      Enter(els, temp, t, animated) == Cascade(
        MarkDragged(els[t := els[t].(order := Some(Shifted(p, q)), offset := OffsetFor(p, q, IsAnimated(els[t].offset, animated[t])))], q),
        moved[m := moved[m].(order := Shifted(p, q))],
        false)
  {
    SweepSingle(Cascade(els, temp, false), els[j].order, els[t].order, animated, |els|, t);
  }

  /** The first marked element is the one `querySelector` finds. */
  lemma FirstDraggingIs(els: seq<Element>, j: nat)
    requires j < |els| && Marked(els[j])
    requires forall i :: 0 <= i < j ==> !Marked(els[i])
    ensures FirstDragging(els) == Some(j)
  {
  }

  /** Writing a non-dragging element leaves the dragging element found by
      `querySelector` where it was, so its order is the one that moves. */
  lemma MarkAfterShift(els: seq<Element>, t: nat, e: Element, j: nat, o: int)
    requires t < |els| && t != j && FirstDragging(els) == Some(j) && !e.dragging
    ensures MarkDragged(els[t := e], o) == els[t := e][j := els[j].(order := Some(o))]
  {
    var els' := els[t := e];
    forall i | 0 <= i < j
      ensures !Marked(els'[i])
    {
      if i != t {
        assert els'[i] == els[i];
      }
    }
    FirstDraggingIs(els', j);
  }

  // ---------------------------------------------------------------------
  // A well-formed gesture: every element shows its record's order

  /** Element `k` renders record `k`: it is attached and its `data-order`
      parses to that record's order; the orders are pairwise distinct. */
  ghost predicate Synced(els: seq<Element>, temp: seq<Item>) {
    |els| == |temp| &&
    (forall k :: 0 <= k < |els| ==> els[k].mounted && els[k].order == Some(temp[k].order)) &&
    (forall i, j :: 0 <= i < j < |temp| ==> temp[i].order != temp[j].order)
  }

  /** Exactly element `j` carries the dragging marker. */
  ghost predicate DraggingOnly(els: seq<Element>, j: nat) {
    j < |els| && forall k :: 0 <= k < |els| ==> (els[k].dragging <==> k == j)
  }

  /** The orders are 0..n-1, each once: n distinct values in that range. */
  ghost predicate IsRanking(temp: seq<Item>) {
    (forall i :: 0 <= i < |temp| ==> 0 <= temp[i].order < |temp|) &&
    (forall i, j :: 0 <= i < j < |temp| ==> temp[i].order != temp[j].order)
  }

  /** Working-copy update of one enter: the record holding the dragged order
      takes the entered order and the entered record takes the shifted order;
      the entered element is shifted, the dragging element takes the entered
      order, and nothing else changes. */
  lemma EnterStep(els: seq<Element>, temp: seq<Item>, j: nat, t: nat, animated: seq<bool>)
    requires Synced(els, temp) && DraggingOnly(els, j)
    requires t < |els| && t != j && |animated| == |els|
    ensures var p, q := temp[j].order, temp[t].order;
      Enter(els, temp, t, animated) == Cascade(
        els[t := els[t].(order := Some(Shifted(Some(p), q)), offset := OffsetFor(Some(p), q, IsAnimated(els[t].offset, animated[t])))][j := els[j].(order := Some(q))],
        temp[j := temp[j].(order := q)][t := temp[t].(order := Shifted(Some(p), q))],
        false)
  {
    var p, q := temp[j].order, temp[t].order;
    assert FirstDragging(els) == Some(j);
    forall k | 0 <= k < |els| && k != t
      ensures !Entered(els[k], Some(q))
    {
      if k != j {
        assert temp[k].order != q;
      }
    }
    assert FindOrder(temp, Some(p)) == Some(j);
    assert FindOrder(temp, Some(q)) == Some(t);
    EnterOnly(els, temp, t, animated, j, j, t);
    MarkAfterShift(els, t, els[t].(order := Some(Shifted(Some(p), q)), offset := OffsetFor(Some(p), q, IsAnimated(els[t].offset, animated[t]))), j, q);
  }

  /** As `Synced`, except that element `u`'s `data-order` does not parse. */
  ghost predicate SyncedExcept(els: seq<Element>, temp: seq<Item>, u: nat) {
    |els| == |temp| && u < |els| &&
    (forall k :: 0 <= k < |els| ==> els[k].mounted && els[k].order == (if k == u then None else Some(temp[k].order))) &&
    (forall i, j :: 0 <= i < j < |temp| ==> temp[i].order != temp[j].order)
  }

  /** An element whose `data-order` does not parse is left out of the
      cascade: the enter changes the dragged and entered records and elements
      exactly as `EnterStep` says, so element `u` and its record keep their
      state even when the cascade passes over them. */
  lemma EnterSkipsUnparsed(els: seq<Element>, temp: seq<Item>, j: nat, t: nat, u: nat, animated: seq<bool>)
    requires SyncedExcept(els, temp, u) && DraggingOnly(els, j)
    requires t < |els| && t != j && u != j && u != t && |animated| == |els|
    ensures var p, q := temp[j].order, temp[t].order;
      Enter(els, temp, t, animated) == Cascade(
        els[t := els[t].(order := Some(Shifted(Some(p), q)), offset := OffsetFor(Some(p), q, IsAnimated(els[t].offset, animated[t])))][j := els[j].(order := Some(q))],
        temp[j := temp[j].(order := q)][t := temp[t].(order := Shifted(Some(p), q))],
        false)
  {
    var p, q := temp[j].order, temp[t].order;
    assert FirstDragging(els) == Some(j);
    forall k | 0 <= k < |els| && k != t
      ensures !Entered(els[k], Some(q))
    {
      if k != j && k != u {
        assert temp[k].order != q;
      }
    }
    assert FindOrder(temp, Some(p)) == Some(j);
    assert FindOrder(temp, Some(q)) == Some(t);
    EnterOnly(els, temp, t, animated, j, j, t);
    MarkAfterShift(els, t, els[t].(order := Some(Shifted(Some(p), q)), offset := OffsetFor(Some(p), q, IsAnimated(els[t].offset, animated[t]))), j, q);
  }

  /** An enter across one boundary (adjacent orders) swaps the orders of
      exactly the dragged and the entered records, keeps every element in
      step with its record, and keeps the orders a ranking 0..n-1. */
  lemma AdjacentEnterSwaps(els: seq<Element>, temp: seq<Item>, j: nat, t: nat, animated: seq<bool>)
    requires Synced(els, temp) && DraggingOnly(els, j)
    requires t < |els| && t != j && |animated| == |els|
    requires temp[j].order - temp[t].order == 1 || temp[t].order - temp[j].order == 1
    ensures var r := Enter(els, temp, t, animated);
      && !r.aborted
      && r.temp == temp[j := temp[j].(order := temp[t].order)][t := temp[t].(order := temp[j].order)]
      && Synced(r.elements, r.temp) && DraggingOnly(r.elements, j)
    ensures var r := Enter(els, temp, t, animated);
      IsRanking(temp) ==> IsRanking(r.temp)
  {
    var p, q := temp[j].order, temp[t].order;
    EnterStep(els, temp, j, t, animated);
    assert Shifted(Some(p), q) == p;
    var r := Enter(els, temp, t, animated);
    assert r.temp == temp[j := temp[j].(order := q)][t := temp[t].(order := p)];
    assert forall k :: 0 <= k < |els| ==> r.elements[k].mounted && r.elements[k].order == Some(r.temp[k].order);
  }

  /** Re-entering the same neighbour right after a swap reverses it: every
      record and every element's order is back where it was. */
  lemma ReenterRestores(els: seq<Element>, temp: seq<Item>, j: nat, t: nat, animated: seq<bool>)
    requires Synced(els, temp) && DraggingOnly(els, j)
    requires t < |els| && t != j && |animated| == |els|
    requires temp[j].order - temp[t].order == 1 || temp[t].order - temp[j].order == 1
    ensures var r1 := Enter(els, temp, t, animated);
      var r2 := Enter(r1.elements, r1.temp, t, animated);
      && !r2.aborted
      && r2.temp == temp
      && forall k :: 0 <= k < |els| ==> r2.elements[k].order == els[k].order
  {
    var p, q := temp[j].order, temp[t].order;
    AdjacentEnterSwaps(els, temp, j, t, animated);
    var r1 := Enter(els, temp, t, animated);
    assert r1.temp[j].order == q && r1.temp[t].order == p;
    assert Shifted(Some(q), p) == q;
    EnterStep(r1.elements, r1.temp, j, t, animated);
  }

  /** The same neighbour crossed twice in a row from an empty transform: the
      first crossing gives it `translateY(0)`, which the browser reads back
      with "0px", so on the second crossing the test `isAnimated` fails and
      the neighbour is moved down when the dragged element started above it
      and up otherwise. */
  lemma ReenterShifts(els: seq<Element>, temp: seq<Item>, j: nat, t: nat, animated: seq<bool>)
    requires Synced(els, temp) && DraggingOnly(els, j)
    requires t < |els| && t != j && |animated| == |els|
    requires temp[j].order - temp[t].order == 1 || temp[t].order - temp[j].order == 1
    requires els[t].offset == Cleared
    ensures var r1 := Enter(els, temp, t, animated);
      var r2 := Enter(r1.elements, r1.temp, t, animated);
      && r1.elements[t].offset == Zero
      && r2.elements[t].offset == (if temp[j].order < temp[t].order then Down else Up)
  {
    AdjacentEnterSwaps(els, temp, j, t, animated);
    EnterStep(els, temp, j, t, animated);
    var r1 := Enter(els, temp, t, animated);
    EnterStep(r1.elements, r1.temp, j, t, animated);
  }

  /** The dragging element's own drag-enter is ignored. */
  lemma DraggingEnterIgnored(els: seq<Element>, temp: seq<Item>, t: nat, animated: seq<bool>)
    requires t < |els| && |animated| == |els| && els[t].dragging
    ensures Enter(els, temp, t, animated) == Cascade(els, temp, false)
  {
  }

  /** With every transform empty, as at the first render and after each
      element's own `dragend`, the first enter of a gesture moves no
      neighbour up or down: only an element carrying the entered order is
      given `translateY(0)`, every other transform stays empty. */
  lemma EnterFirstCrossing(els: seq<Element>, temp: seq<Item>, t: nat, animated: seq<bool>)
    requires t < |els| && |animated| == |els|
    requires forall i :: 0 <= i < |els| ==> els[i].offset == Cleared
    ensures forall i :: 0 <= i < |els| ==> Enter(els, temp, t, animated).elements[i].offset in {Cleared, Zero}
    ensures forall i :: 0 <= i < |els| && Enter(els, temp, t, animated).elements[i].offset == Zero ==>
      els[t].mounted && Entered(els[i], els[t].order)
  {
    var c := Cascade(els, temp, false);
    if !els[t].dragging && FirstDragging(els).Some? {
      var j := FirstDragging(els).value;
      SweepOnlyEnteredZero(c, els[j].order, if els[t].mounted then els[t].order else None, animated, |els|);
    } else {
      assert Enter(els, temp, t, animated) == c;
    }
  }

  /** The first render of records with distinct orders is in step with them,
      and no element is dragging yet. */
  lemma MountSynced(items: seq<Item>)
    requires forall i, j :: 0 <= i < j < |items| ==> items[i].order != items[j].order
    ensures Synced(Mount(items), items)
    ensures FirstDragging(Mount(items)) == None
  {
  }
}
