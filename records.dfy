/** Records of the sortable list, the per-element drag state the list keeps on
    its rendered elements, and the library lookups the reorder engine relies on
    (`Array.prototype.find`, `document.querySelector`, `Array.prototype.sort`). */
module Records {

  datatype Option<T> = None | Some(value: T)

  /** One entry of the host's list: a unique identifier and its integer
      position. The payload the host renders is not part of the model. */
  datatype Item = Item(id: string, order: int)

  /** An element's inline transform, in place of the CSS strings: `Cleared`
      is the empty transform (at mount and after the element's own
      `dragend`), `Zero` is `translateY(0)`, and `Up` and `Down` are the
      one-slot translations. */
  datatype Offset = Cleared | Zero | Up | Down

  /** What the engine reads and writes on one rendered element: whether its
      reference is attached to a DOM node, its `data-dragging` marker, its
      `data-order` attribute as `parseInt` reads it (`None` for NaN), and its
      transform. */
  datatype Element = Element(mounted: bool, dragging: bool, order: Option<int>, offset: Offset)

  /** The element `document.querySelector('[data-dragging=true]')` can find. */
  predicate Marked(e: Element) {
    e.mounted && e.dragging
  }

  /** `find(item => item.order === o)`: the index of the first record whose
      order is `o`, or `None` for `undefined`. An unparsed order (NaN) is equal
      to no number, so it finds nothing. */
  function FindOrder(s: seq<Item>, o: Option<int>): (r: Option<nat>)
    ensures r.Some? ==> o.Some? && r.value < |s| && s[r.value].order == o.value
    ensures r.Some? ==> forall i :: 0 <= i < r.value ==> s[i].order != o.value
    ensures r.None? ==> forall i :: 0 <= i < |s| ==> !(o.Some? && s[i].order == o.value)
  {
    if o.None? || |s| == 0 then None
    else if s[0].order == o.value then Some(0)
    else match FindOrder(s[1..], o)
      case None => None
      case Some(i) => Some(i + 1)
  }

  /** `document.querySelector('[data-dragging=true]')`: the first element, in
      document order, that is attached and marked as dragging. */
  function FirstDragging(els: seq<Element>): (r: Option<nat>)
    ensures r.Some? ==> r.value < |els| && Marked(els[r.value])
    ensures r.Some? ==> forall i :: 0 <= i < r.value ==> !Marked(els[i])
    ensures r.None? ==> forall i :: 0 <= i < |els| ==> !Marked(els[i])
  {
    if |els| == 0 then None
    else if Marked(els[0]) then Some(0)
    else match FirstDragging(els[1..])
      case None => None
      case Some(i) => Some(i + 1)
  }

  predicate SortedByOrder(s: seq<Item>) {
    forall i, j :: 0 <= i < j < |s| ==> s[i].order <= s[j].order
  }

  /** Inserts `x` before the first record of `s` whose order is not smaller,
      so that records with equal orders keep their relative positions. */
  function Insert(x: Item, s: seq<Item>): (r: seq<Item>)
    requires SortedByOrder(s)
    ensures SortedByOrder(r)
    ensures |r| == |s| + 1
    ensures r[0] == x || (s != [] && r[0] == s[0])
  {
    if s == [] || x.order <= s[0].order then [x] + s
    else [s[0]] + Insert(x, s[1..])
  }

  /** `sort((a, b) => a.order - b.order)` on a copy: a stable sort ascending by
      order. */
  function SortByOrder(s: seq<Item>): (r: seq<Item>)
    ensures SortedByOrder(r)
    ensures |r| == |s|
  {
    if s == [] then [] else Insert(s[0], SortByOrder(s[1..]))
  }

  /** Inserting adds exactly `x` to the records. */
  lemma {:induction false} InsertAdds(x: Item, s: seq<Item>)
    requires SortedByOrder(s)
    ensures multiset(Insert(x, s)) == multiset(s) + multiset{x}
  {
    if s != [] && x.order > s[0].order {
      InsertAdds(x, s[1..]);
      assert s == [s[0]] + s[1..];
    }
  }

  /** A non-empty sequence is its head and its tail, as multisets. */
  lemma HeadTail(s: seq<Item>)
    requires s != []
    ensures multiset(s) == multiset(s[1..]) + multiset{s[0]}
  {
    assert s == [s[0]] + s[1..];
  }

  /** Sorting is a permutation: the sorted copy holds the same records. */
  lemma {:induction false} SortPermutes(s: seq<Item>)
    ensures multiset(SortByOrder(s)) == multiset(s)
  {
    if s != [] {
      var tail := SortByOrder(s[1..]);
      SortPermutes(s[1..]);
      InsertAdds(s[0], tail);
      HeadTail(s);
    }
  }

  /** Sorting a list that is already ascending by order returns it unchanged. */
  lemma {:induction false} SortedIsFixpoint(s: seq<Item>)
    requires SortedByOrder(s)
    ensures SortByOrder(s) == s
  {
    if s != [] {
      SortedIsFixpoint(s[1..]);
      assert SortByOrder(s[1..]) == s[1..];
      assert s == [s[0]] + s[1..];
    }
  }

  /** Sorting twice gives the same list as sorting once. */
  lemma SortIsIdempotent(s: seq<Item>)
    ensures SortByOrder(SortByOrder(s)) == SortByOrder(s)
  {
    SortedIsFixpoint(SortByOrder(s));
  }

  /** The elements of a first render: one per item, attached, not dragging,
      with `data-order={item.order}` and no transform. */
  function Mount(items: seq<Item>): (r: seq<Element>)
    ensures |r| == |items|
    ensures forall k :: 0 <= k < |r| ==> r[k].mounted && !r[k].dragging && r[k].order == Some(items[k].order) && r[k].offset == Cleared
  {
    seq(|items|, k requires 0 <= k < |items| => Element(true, false, Some(items[k].order), Cleared))
  }
}
