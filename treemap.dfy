/**
 * The slice-and-dice treemap of treemap/main.js: `getChildValue` sums a
 * hierarchy's values bottom-up, and `assignSpace` cuts a rectangle into one
 * slice per child, proportional to the child's value, alternating the cutting
 * axis at each level, down to one rectangle per leaf.
 */
module Treemap {
  import opened Sequences

  /** The `data` of a hierarchy node: `{name, value}`. */
  datatype Datum = Datum(name: string, value: real)

  /**
   * A hierarchy node with its `depth` below the root. A `Leaf` has no
   * `children` property; a `Node` has a `children` array, which may be empty.
   */
  datatype Hierarchy =
    | Leaf(data: Datum, depth: nat)
    | Node(data: Datum, depth: nat, children: seq<Hierarchy>)

  /** One rectangle of the result of `assignSpace`. */
  datatype Rect = Rect(name: string, x: real, y: real, width: real, height: real,
                       depth: nat, value: real, numSiblings: int, index: real)

  /** The test `!hierarchy.children || hierarchy.children.length === 0`. */
  predicate IsLeaf(h: Hierarchy) {
    h.Leaf? || h.children == []
  }

  /** `getChildValue`: a `Leaf`'s own value, else the sum over the children (0 for an empty array). */
  function ChildValue(h: Hierarchy): real
    decreases h, 1
  {
    match h
    case Leaf(data, _) => data.value
    case Node(_, _, children) => ChildSum(h, |children|)
  }

  /** The `reduce` over the first `k` children: `sum + getChildValue(child)` from 0. */
  function ChildSum(h: Hierarchy, k: nat): real
    requires h.Node? && k <= |h.children|
    decreases h, 0, k
  {
    if k == 0 then 0.0 else ChildSum(h, k - 1) + ChildValue(h.children[k - 1])
  }

  function Value(d: Datum): real {
    d.value
  }

  /**
   * The data of the `Leaf` nodes, depth first: the values `getChildValue` adds
   * up. An empty `Node` contributes nothing here, although `IsLeaf` holds for it
   * (see `TileData`).
   */
  function LeafData(h: Hierarchy): seq<Datum>
    decreases h, 1
  {
    match h
    case Leaf(data, _) => [data]
    case Node(_, _, children) => LeafDataUpTo(h, |children|)
  }

  function LeafDataUpTo(h: Hierarchy, k: nat): seq<Datum>
    requires h.Node? && k <= |h.children|
    decreases h, 0, k
  {
    if k == 0 then [] else LeafDataUpTo(h, k - 1) + LeafData(h.children[k - 1])
  }

  /**
   * The data of the nodes `assignSpace` gives a rectangle (those `IsLeaf` holds
   * for, an empty `Node` included), depth first in child order.
   */
  function TileData(h: Hierarchy): seq<Datum>
    decreases h, 1
  {
    if IsLeaf(h) then [h.data] else TileDataUpTo(h, |h.children|)
  }

  function TileDataUpTo(h: Hierarchy, k: nat): seq<Datum>
    requires h.Node? && k <= |h.children|
    decreases h, 0, k
  {
    if k == 0 then [] else TileDataUpTo(h, k - 1) + TileData(h.children[k - 1])
  }

  /** The number of nodes `assignSpace` gives a rectangle: those `IsLeaf` holds for. */
  function LeafCount(h: Hierarchy): nat
    decreases h, 1
  {
    if IsLeaf(h) then 1 else LeafCountUpTo(h, |h.children|)
  }

  function LeafCountUpTo(h: Hierarchy, k: nat): nat
    requires h.Node? && k <= |h.children|
    decreases h, 0, k
  {
    if k == 0 then 0 else LeafCountUpTo(h, k - 1) + LeafCount(h.children[k - 1])
  }

  /** Every node that `assignSpace` splits has a non-zero value, so no ratio divides by zero. */
  predicate Divisible(h: Hierarchy)
    decreases h
  {
    h.Node? ==>
      (h.children != [] ==> ChildValue(h) != 0.0) &&
      forall i :: 0 <= i < |h.children| ==> Divisible(h.children[i])
  }

  /** The children in the order `assignSpace` lays them out: ascending by value. */
  function Sorted(h: Hierarchy): (cs: seq<Hierarchy>)
    requires h.Node?
    ensures |cs| == |h.children| && SortedBy(cs, ChildValue)
    ensures multiset(cs) == multiset(h.children)
    ensures forall c :: c in cs ==> c in h.children
  {
    var cs := SortBy(h.children, ChildValue);
    assert forall c :: c in cs ==> c in h.children by {
      forall c | c in cs ensures c in h.children {
        assert c in multiset(cs);
      }
    }
    cs
  }

  /** The length of the split axis: the height when `rotate`, else the width. */
  function Extent(width: real, height: real, rotate: bool): real {
    if rotate then height else width
  }

  /** The size along the split axis of a child worth `value` out of `total`: `extent * ratio`. */
  function Share(extent: real, value: real, total: real): real
    requires total != 0.0
  {
    extent * (value / total)
  }

  /** The value of `other` after `k` children: the summed sizes of their slices. */
  function Offset(cs: seq<Hierarchy>, k: nat, extent: real, total: real): real
    requires k <= |cs| && total != 0.0
  {
    if k == 0 then 0.0 else Offset(cs, k - 1, extent, total) + Share(extent, ChildValue(cs[k - 1]), total)
  }

  datatype Frame = Frame(x: real, y: real, width: real, height: real)

  /** The slice `[start, start + size)` of the split axis, across the whole other axis. */
  function Slice(x: real, y: real, width: real, height: real, start: real, size: real, rotate: bool): Frame {
    if rotate then Frame(x, y + start, width, size) else Frame(x + start, y, size, height)
  }

  /** The rectangle the `k`-th child in layout order receives. */
  function ChildFrame(h: Hierarchy, k: nat, width: real, height: real, x: real, y: real, rotate: bool): Frame
    requires h.Node? && k < |h.children| && ChildValue(h) != 0.0
  {
    var sorted := Sorted(h);
    var extent := Extent(width, height, rotate);
    Slice(x, y, width, height, Offset(sorted, k, extent, ChildValue(h)),
          Share(extent, ChildValue(sorted[k]), ChildValue(h)), rotate)
  }

  /** One step of the running offset: after adding child `k`'s size, the slice ends at `end`. */
  lemma FrameStep(h: Hierarchy, k: nat, width: real, height: real, x: real, y: real, rotate: bool,
                  extent: real, ratio: real, end: real, size: real)
    requires h.Node? && k < |h.children| && ChildValue(h) != 0.0
    requires extent == Extent(width, height, rotate) && ratio == ChildValue(Sorted(h)[k]) / ChildValue(h)
    requires size == extent * ratio && end == Offset(Sorted(h), k, extent, ChildValue(h)) + size
    ensures end == Offset(Sorted(h), k + 1, extent, ChildValue(h))
    ensures ChildFrame(h, k, width, height, x, y, rotate) == Slice(x, y, width, height, end - size, size, rotate)
  {
  }

  /** The rectangles `assignSpace` returns, as a function of its arguments. */
  function Tiles(h: Hierarchy, siblings: nat, width: real, height: real, x: real, y: real, rotate: bool, index: real): seq<Rect>
    requires Divisible(h)
    decreases h, 1
  {
    if IsLeaf(h) then
      [Rect(h.data.name, x, y, width, height, h.depth, h.data.value, siblings - 1, index)]
    else
      Slices(h, |h.children|, width, height, x, y, rotate)
  }

  /** The rectangles of the first `k` children in layout order. */
  function Slices(h: Hierarchy, k: nat, width: real, height: real, x: real, y: real, rotate: bool): seq<Rect>
    requires Divisible(h) && h.Node? && h.children != [] && k <= |h.children|
    decreases h, 0, k
  {
    if k == 0 then []
    else
      var sorted := Sorted(h);
      var c := sorted[k - 1];
      assert c in h.children;
      assert exists j :: 0 <= j < |h.children| && h.children[j] == c;
      var f := ChildFrame(h, k - 1, width, height, x, y, rotate);
      Slices(h, k - 1, width, height, x, y, rotate) +
        Tiles(c, |sorted|, f.width, f.height, f.x, f.y, !rotate, (k - 1) as real / |sorted| as real)
  }

  /**
   * `assignSpace(hierarchy, rootWidth, rootHeight, rootX, rootY, rotate, index)`;
   * `siblings` is `hierarchy.parent.children.length`.
   */
  method AssignSpace(h: Hierarchy, siblings: nat, rootWidth: real, rootHeight: real, rootX: real, rootY: real,
                     rotate: bool, index: real) returns (rects: seq<Rect>)
    requires Divisible(h)
    ensures rects == Tiles(h, siblings, rootWidth, rootHeight, rootX, rootY, rotate, index)
    decreases h, 1
  {
    if IsLeaf(h) {
      return [Rect(h.data.name, rootX, rootY, rootWidth, rootHeight, h.depth, h.data.value, siblings - 1, index)];
    }
    var rootValue := ChildValue(h);
    var sorted := Sorted(h);
    var other := 0.0;
    rects := [];
    for i := 0 to |sorted|
      invariant other == Offset(sorted, i, Extent(rootWidth, rootHeight, rotate), rootValue)
      invariant rects == Slices(h, i, rootWidth, rootHeight, rootX, rootY, rotate)
    {
      var part;
      part, other := PlaceChild(h, rootValue, sorted, i, other, rootWidth, rootHeight, rootX, rootY, rotate);
      rects := rects + part;
    }
  }

  /**
   * The `flatMap` callback of `assignSpace` for the `i`-th child in layout order:
   * advances the running offset `other` by the child's size and lays the child
   * out in its slice.
   */
  method PlaceChild(h: Hierarchy, rootValue: real, sorted: seq<Hierarchy>, i: nat, other: real,
                    rootWidth: real, rootHeight: real, rootX: real, rootY: real, rotate: bool)
    returns (part: seq<Rect>, next: real)
    requires Divisible(h) && !IsLeaf(h) && rootValue == ChildValue(h) && sorted == Sorted(h) && i < |sorted|
    requires other == Offset(sorted, i, Extent(rootWidth, rootHeight, rotate), rootValue)
    ensures next == Offset(sorted, i + 1, Extent(rootWidth, rootHeight, rotate), rootValue)
    ensures Slices(h, i + 1, rootWidth, rootHeight, rootX, rootY, rotate) ==
            Slices(h, i, rootWidth, rootHeight, rootX, rootY, rotate) + part
    decreases h, 0
  {
    var c := sorted[i];
    assert c in h.children;
    var j :| 0 <= j < |h.children| && h.children[j] == c;
    var val := ChildValue(c);
    var ratio := val / rootValue;
    if rotate {
      var height := rootHeight * ratio;
      next := other + height;
      FrameStep(h, i, rootWidth, rootHeight, rootX, rootY, rotate, rootHeight, ratio, next, height);
      part := AssignSpace(c, |sorted|, rootWidth, height, rootX, rootY + next - height, !rotate, i as real / |sorted| as real);
    } else {
      var width := rootWidth * ratio;
      next := other + width;
      FrameStep(h, i, rootWidth, rootHeight, rootX, rootY, rotate, rootWidth, ratio, next, width);
      part := AssignSpace(c, |sorted|, width, rootHeight, rootX + next - width, rootY, !rotate, i as real / |sorted| as real);
    }
    SlicesStep(h, i, rootWidth, rootHeight, rootX, rootY, rotate, part);
  }

  /** The rectangles of the first `k + 1` children extend those of the first `k` by child `k`'s. */
  lemma SlicesStep(h: Hierarchy, k: nat, width: real, height: real, x: real, y: real, rotate: bool, part: seq<Rect>)
    requires Divisible(h) && h.Node? && h.children != [] && k < |h.children| && Divisible(Sorted(h)[k])
    requires var f := ChildFrame(h, k, width, height, x, y, rotate);
             part == Tiles(Sorted(h)[k], |h.children|, f.width, f.height, f.x, f.y, !rotate, k as real / |h.children| as real)
    ensures Slices(h, k + 1, width, height, x, y, rotate) == Slices(h, k, width, height, x, y, rotate) + part
  {
  }
}
