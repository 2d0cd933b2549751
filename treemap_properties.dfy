/**
 * What the slice-and-dice layout of `assignSpace` guarantees: one rectangle
 * per leaf, the children's slices cut the parent's rectangle into adjacent
 * strips that cover it exactly, smaller children come first, and the total
 * area is preserved. `getChildValue` is the sum of the leaf values.
 */
module TreemapProperties {
  import opened Sequences
  import opened Treemap

  /** The area of a `width` by `height` rectangle. */
  function Area(width: real, height: real): real {
    width * height
  }

  /** The summed areas of the rectangles. */
  function TotalArea(rs: seq<Rect>): real {
    if rs == [] then 0.0 else TotalArea(rs[..|rs| - 1]) + Area(rs[|rs| - 1].width, rs[|rs| - 1].height)
  }

  lemma {:induction false} TotalAreaConcat(a: seq<Rect>, b: seq<Rect>)
    ensures TotalArea(a + b) == TotalArea(a) + TotalArea(b)
  {
    if b == [] {
      assert a + b == a;
    } else {
      TotalAreaConcat(a, b[..|b| - 1]);
      assert (a + b)[..|a + b| - 1] == a + b[..|b| - 1];
    }
  }

  /** The length of the axis a node does not split: the width when `rotate`, else the height. */
  function Cross(width: real, height: real, rotate: bool): real {
    if rotate then width else height
  }

  /** `b` is the strip right after `a` along the split axis, with the same extent across it. */
  predicate Abuts(a: Frame, b: Frame, rotate: bool) {
    if rotate then b.y == a.y + a.height && b.x == a.x && b.width == a.width
    else b.x == a.x + a.width && b.y == a.y && b.height == a.height
  }

  /** `a` lies within `b` and has no negative side. */
  predicate Inside(a: Frame, b: Frame) {
    0.0 <= a.width && 0.0 <= a.height &&
    b.x <= a.x && a.x + a.width <= b.x + b.width &&
    b.y <= a.y && a.y + a.height <= b.y + b.height
  }

  // ----- getChildValue -----

  lemma {:induction false} ChildSumSeq(h: Hierarchy, k: nat)
    requires h.Node? && k <= |h.children|
    ensures ChildSum(h, k) == SumBy(h.children[..k], ChildValue)
    decreases k
  {
    if k > 0 {
      ChildSumSeq(h, k - 1);
      assert h.children[..k][..k - 1] == h.children[..k - 1];
    }
  }

  /** The value of a `Node` is the sum of its children's values, in any order. */
  lemma NodeValue(h: Hierarchy)
    requires h.Node?
    ensures ChildValue(h) == SumBy(h.children, ChildValue)
    ensures ChildValue(h) == SumBy(Sorted(h), ChildValue)
  {
    ChildSumSeq(h, |h.children|);
    assert h.children[..|h.children|] == h.children;
    SortBySum(h.children, ChildValue, ChildValue);
  }

  /** `getChildValue` is the sum of the values of the leaves below the node. */
  lemma {:induction false} ChildValueLeaves(h: Hierarchy)
    ensures ChildValue(h) == SumBy(LeafData(h), Value)
    decreases h, 1
  {
    match h
    case Leaf(data, _) =>
      assert [data][..0] == [];
    case Node(_, _, children) =>
      ChildSumLeaves(h, |children|);
  }

  lemma {:induction false} ChildSumLeaves(h: Hierarchy, k: nat)
    requires h.Node? && k <= |h.children|
    ensures ChildSum(h, k) == SumBy(LeafDataUpTo(h, k), Value)
    decreases h, 0, k
  {
    if k > 0 {
      var c := h.children[k - 1];
      ChildSumLeaves(h, k - 1);
      ChildValueLeaves(c);
      assert LeafDataUpTo(h, k) == LeafDataUpTo(h, k - 1) + LeafData(c);
      SumByConcat(LeafDataUpTo(h, k - 1), LeafData(c), Value);
    }
  }

  // ----- the running offset -----

  /** After `k` children the offset is the extent times their share of the total. */
  lemma {:induction false} OffsetSum(cs: seq<Hierarchy>, k: nat, extent: real, total: real)
    requires k <= |cs| && total != 0.0
    ensures Offset(cs, k, extent, total) == extent * (SumBy(cs[..k], ChildValue) / total)
  {
    if k > 0 {
      OffsetSum(cs, k - 1, extent, total);
      assert cs[..k][..k - 1] == cs[..k - 1];
      var a := SumBy(cs[..k - 1], ChildValue);
      var b := ChildValue(cs[k - 1]);
      assert SumBy(cs[..k], ChildValue) == a + b;
      assert (a + b) / total == a / total + b / total;
      assert extent * ((a + b) / total) == extent * (a / total) + extent * (b / total);
    }
  }

  /** After the last child the offset has reached the full extent. */
  lemma OffsetCover(h: Hierarchy, extent: real)
    requires h.Node? && ChildValue(h) != 0.0
    ensures Offset(Sorted(h), |h.children|, extent, ChildValue(h)) == extent
  {
    var sorted := Sorted(h);
    var total := ChildValue(h);
    OffsetSum(sorted, |sorted|, extent, total);
    assert sorted[..|sorted|] == sorted;
    NodeValue(h);
    assert total / total == 1.0;
  }

  // ----- one rectangle per leaf -----

  lemma {:induction false} LeafCountSeq(h: Hierarchy, k: nat)
    requires h.Node? && k <= |h.children|
    ensures LeafCountUpTo(h, k) == CountBy(h.children[..k], LeafCount)
    decreases k
  {
    if k > 0 {
      LeafCountSeq(h, k - 1);
      assert h.children[..k][..k - 1] == h.children[..k - 1];
    }
  }

  /** `assignSpace` returns exactly one rectangle per node without children. */
  lemma {:induction false} TilesCount(h: Hierarchy, siblings: nat, width: real, height: real, x: real, y: real,
                                      rotate: bool, index: real)
    requires Divisible(h)
    ensures |Tiles(h, siblings, width, height, x, y, rotate, index)| == LeafCount(h)
    decreases h, 1
  {
    if !IsLeaf(h) {
      var n := |h.children|;
      SlicesCount(h, n, width, height, x, y, rotate);
      LeafCountSeq(h, n);
      SortByCount(h.children, ChildValue, LeafCount);
      assert h.children[..n] == h.children;
      assert Sorted(h)[..n] == Sorted(h);
    }
  }

  lemma {:induction false} SlicesCount(h: Hierarchy, k: nat, width: real, height: real, x: real, y: real, rotate: bool)
    requires Divisible(h) && h.Node? && h.children != [] && k <= |h.children|
    ensures |Slices(h, k, width, height, x, y, rotate)| == CountBy(Sorted(h)[..k], LeafCount)
    decreases h, 0, k, 1
  {
    if k > 0 {
      SlicesCount(h, k - 1, width, height, x, y, rotate);
      SlicesCountStep(h, k - 1, width, height, x, y, rotate);
    }
  }

  /** Adding child `k`'s rectangles adds one per leaf below it. */
  lemma {:induction false} SlicesCountStep(h: Hierarchy, k: nat, width: real, height: real, x: real, y: real, rotate: bool)
    requires Divisible(h) && h.Node? && h.children != [] && k < |h.children|
    requires |Slices(h, k, width, height, x, y, rotate)| == CountBy(Sorted(h)[..k], LeafCount)
    ensures |Slices(h, k + 1, width, height, x, y, rotate)| == CountBy(Sorted(h)[..k + 1], LeafCount)
    decreases h, 0, k, 0
  {
    var sorted := Sorted(h);
    var c := sorted[k];
    assert c in h.children;
    var j :| 0 <= j < |h.children| && h.children[j] == c;
    var f := ChildFrame(h, k, width, height, x, y, rotate);
    var tiles := Tiles(c, |h.children|, f.width, f.height, f.x, f.y, !rotate, k as real / |h.children| as real);
    SlicesStep(h, k, width, height, x, y, rotate, tiles);
    TilesCount(c, |h.children|, f.width, f.height, f.x, f.y, !rotate, k as real / |h.children| as real);
    assert sorted[..k + 1][..k] == sorted[..k];
  }

  // ----- the rectangles carry the childless nodes' data -----

  /** The `{name, value}` each rectangle carries, in order. */
  function Labels(rs: seq<Rect>): (ds: seq<Datum>)
    ensures |ds| == |rs| && forall i :: 0 <= i < |rs| ==> ds[i] == Datum(rs[i].name, rs[i].value)
  {
    seq(|rs|, i requires 0 <= i < |rs| => Datum(rs[i].name, rs[i].value))
  }

  /** `TileData` of each hierarchy in turn, concatenated. */
  function Flat(cs: seq<Hierarchy>): seq<Datum>
    decreases |cs|
  {
    if cs == [] then [] else Flat(cs[..|cs| - 1]) + TileData(cs[|cs| - 1])
  }

  lemma {:induction false} FlatConcat(a: seq<Hierarchy>, b: seq<Hierarchy>)
    ensures Flat(a + b) == Flat(a) + Flat(b)
    decreases |b|
  {
    if b == [] {
      assert a + b == a;
    } else {
      FlatConcat(a, b[..|b| - 1]);
      assert (a + b)[..|a + b| - 1] == a + b[..|b| - 1];
    }
  }

  lemma {:induction false} TileDataSeq(h: Hierarchy, k: nat)
    requires h.Node? && k <= |h.children|
    ensures TileDataUpTo(h, k) == Flat(h.children[..k])
    decreases k
  {
    if k > 0 {
      TileDataSeq(h, k - 1);
      assert h.children[..k][..k - 1] == h.children[..k - 1];
    }
  }

  /** Cutting a list of hierarchies around one of them cuts their data the same way. */
  lemma FlatSplit(before: seq<Hierarchy>, c: Hierarchy, after: seq<Hierarchy>)
    ensures Flat(before + [c] + after) == Flat(before) + TileData(c) + Flat(after)
  {
    FlatConcat(before + [c], after);
    FlatConcat(before, [c]);
    assert [c][..0] == [];
  }

  /** The data of the first `k + 1` hierarchies extend those of the first `k` by the `k`-th's. */
  lemma FlatStep(cs: seq<Hierarchy>, k: nat)
    requires k < |cs|
    ensures Flat(cs[..k + 1]) == Flat(cs[..k]) + TileData(cs[k])
  {
    assert cs[..k + 1][..k] == cs[..k];
  }

  /** Taking the same element out of two permutations of each other leaves permutations. */
  lemma RemoveOne<T>(rest: seq<T>, c: T, before: seq<T>, after: seq<T>)
    requires multiset(rest + [c]) == multiset(before + [c] + after)
    ensures multiset(rest) == multiset(before + after)
  {
    assert multiset(rest) == multiset(rest + [c]) - multiset{c};
    assert multiset(before + after) == multiset(before + [c] + after) - multiset{c};
  }

  /** Reordering the hierarchies reorders their data and loses or adds nothing. */
  lemma {:induction false} FlatPermutation(cs: seq<Hierarchy>, ds: seq<Hierarchy>)
    requires multiset(cs) == multiset(ds)
    ensures multiset(Flat(cs)) == multiset(Flat(ds))
    decreases |cs|
  {
    if cs == [] {
      assert |multiset(ds)| == 0;
    } else {
      var n := |cs|;
      var c := cs[n - 1];
      var rest := cs[..n - 1];
      assert cs == rest + [c];
      assert c in multiset(ds);
      var j :| 0 <= j < |ds| && ds[j] == c;
      var before, after := ds[..j], ds[j + 1..];
      assert ds == before + [c] + after;
      RemoveOne(rest, c, before, after);
      FlatPermutation(rest, before + after);
      FlatConcat(before, after);
      FlatSplit(before, c, after);
      assert Flat(cs) == Flat(rest) + TileData(c);
    }
  }

  /**
   * `assignSpace` gives every node without children exactly one rectangle,
   * carrying its `name` and `value`: the rectangles' data are the childless
   * nodes' data, reordered only by the layout.
   */
  lemma {:induction false} TilesData(h: Hierarchy, siblings: nat, width: real, height: real, x: real, y: real,
                                     rotate: bool, index: real)
    requires Divisible(h)
    ensures multiset(Labels(Tiles(h, siblings, width, height, x, y, rotate, index))) == multiset(TileData(h))
    decreases h, 1
  {
    if IsLeaf(h) {
      assert Labels(Tiles(h, siblings, width, height, x, y, rotate, index)) == [h.data];
    } else {
      var n := |h.children|;
      SlicesData(h, n, width, height, x, y, rotate);
      assert Sorted(h)[..n] == Sorted(h);
      assert h.children[..n] == h.children;
      FlatPermutation(Sorted(h), h.children);
      TileDataSeq(h, n);
    }
  }

  lemma {:induction false} SlicesData(h: Hierarchy, k: nat, width: real, height: real, x: real, y: real, rotate: bool)
    requires Divisible(h) && h.Node? && h.children != [] && k <= |h.children|
    ensures multiset(Labels(Slices(h, k, width, height, x, y, rotate))) == multiset(Flat(Sorted(h)[..k]))
    decreases h, 0, k, 1
  {
    if k > 0 {
      SlicesData(h, k - 1, width, height, x, y, rotate);
      SlicesDataStep(h, k - 1, width, height, x, y, rotate);
    }
  }

  /** Adding child `k`'s rectangles adds the data of the childless nodes below it. */
  lemma {:induction false} SlicesDataStep(h: Hierarchy, k: nat, width: real, height: real, x: real, y: real, rotate: bool)
    requires Divisible(h) && h.Node? && h.children != [] && k < |h.children|
    requires multiset(Labels(Slices(h, k, width, height, x, y, rotate))) == multiset(Flat(Sorted(h)[..k]))
    ensures multiset(Labels(Slices(h, k + 1, width, height, x, y, rotate))) == multiset(Flat(Sorted(h)[..k + 1]))
    decreases h, 0, k, 0
  {
    var sorted := Sorted(h);
    var c := sorted[k];
    assert c in h.children;
    var j :| 0 <= j < |h.children| && h.children[j] == c;
    var f := ChildFrame(h, k, width, height, x, y, rotate);
    var prev := Slices(h, k, width, height, x, y, rotate);
    var tiles := Tiles(c, |h.children|, f.width, f.height, f.x, f.y, !rotate, k as real / |h.children| as real);
    SlicesStep(h, k, width, height, x, y, rotate, tiles);
    TilesData(c, |h.children|, f.width, f.height, f.x, f.y, !rotate, k as real / |h.children| as real);
    LabelsConcat(prev, tiles);
    FlatStep(sorted, k);
  }

  lemma LabelsConcat(a: seq<Rect>, b: seq<Rect>)
    ensures Labels(a + b) == Labels(a) + Labels(b)
  {
  }

  // ----- the rectangles cover the root's area -----

  /** The areas of the rectangles add up to the area of the rectangle that was split. */
  lemma {:induction false} TilesArea(h: Hierarchy, siblings: nat, width: real, height: real, x: real, y: real,
                                     rotate: bool, index: real)
    requires Divisible(h)
    ensures TotalArea(Tiles(h, siblings, width, height, x, y, rotate, index)) == Area(width, height)
    decreases h, 1
  {
    var t := Tiles(h, siblings, width, height, x, y, rotate, index);
    if IsLeaf(h) {
      assert t[..0] == [];
    } else {
      var extent := Extent(width, height, rotate);
      SlicesArea(h, |h.children|, width, height, x, y, rotate);
      OffsetCover(h, extent);
      AreaTurn(width, height, extent, Cross(width, height, rotate), rotate);
    }
  }

  lemma {:induction false} SlicesArea(h: Hierarchy, k: nat, width: real, height: real, x: real, y: real, rotate: bool)
    requires Divisible(h) && h.Node? && h.children != [] && k <= |h.children|
    ensures TotalArea(Slices(h, k, width, height, x, y, rotate)) ==
            Area(Offset(Sorted(h), k, Extent(width, height, rotate), ChildValue(h)), Cross(width, height, rotate))
    decreases h, 0, k, 1
  {
    if k > 0 {
      SlicesArea(h, k - 1, width, height, x, y, rotate);
      SlicesAreaStep(h, k - 1, width, height, x, y, rotate);
    }
  }

  /** Adding child `k`'s rectangles adds the area of its strip. */
  lemma {:induction false} SlicesAreaStep(h: Hierarchy, k: nat, width: real, height: real, x: real, y: real, rotate: bool)
    requires Divisible(h) && h.Node? && h.children != [] && k < |h.children|
    requires TotalArea(Slices(h, k, width, height, x, y, rotate)) ==
             Area(Offset(Sorted(h), k, Extent(width, height, rotate), ChildValue(h)), Cross(width, height, rotate))
    ensures TotalArea(Slices(h, k + 1, width, height, x, y, rotate)) ==
            Area(Offset(Sorted(h), k + 1, Extent(width, height, rotate), ChildValue(h)), Cross(width, height, rotate))
    decreases h, 0, k, 0
  {
    var sorted := Sorted(h);
    var extent := Extent(width, height, rotate);
    var c := sorted[k];
    assert c in h.children;
    var j :| 0 <= j < |h.children| && h.children[j] == c;
    var f := ChildFrame(h, k, width, height, x, y, rotate);
    var prev := Slices(h, k, width, height, x, y, rotate);
    var tiles := Tiles(c, |h.children|, f.width, f.height, f.x, f.y, !rotate, k as real / |h.children| as real);
    SlicesStep(h, k, width, height, x, y, rotate, tiles);
    TilesArea(c, |h.children|, f.width, f.height, f.x, f.y, !rotate, k as real / |h.children| as real);
    TotalAreaConcat(prev, tiles);
    ChildArea(h, k, width, height, x, y, rotate);
    AreaStep(TotalArea(prev), TotalArea(tiles), Offset(sorted, k, extent, ChildValue(h)),
             Share(extent, ChildValue(c), ChildValue(h)), Offset(sorted, k + 1, extent, ChildValue(h)),
             Cross(width, height, rotate));
  }

  /** A child's strip spans the whole cross side and its share of the split axis. */
  lemma ChildArea(h: Hierarchy, k: nat, width: real, height: real, x: real, y: real, rotate: bool)
    requires h.Node? && k < |h.children| && ChildValue(h) != 0.0
    ensures var f := ChildFrame(h, k, width, height, x, y, rotate);
            Area(f.width, f.height) ==
            Area(Share(Extent(width, height, rotate), ChildValue(Sorted(h)[k]), ChildValue(h)), Cross(width, height, rotate))
  {
    var sorted := Sorted(h);
    var extent := Extent(width, height, rotate);
    var size := Share(extent, ChildValue(sorted[k]), ChildValue(h));
    var start := Offset(sorted, k, extent, ChildValue(h));
    assert ChildFrame(h, k, width, height, x, y, rotate) == Slice(x, y, width, height, start, size, rotate);
    if rotate {
      assert Area(width, size) == Area(size, width);
    }
  }

  /** Measuring along the split axis first does not change the area. */
  lemma AreaTurn(width: real, height: real, extent: real, cross: real, rotate: bool)
    requires extent == Extent(width, height, rotate) && cross == Cross(width, height, rotate)
    ensures Area(extent, cross) == Area(width, height)
  {
  }

  /** Adding a strip of length `share` to strips of total length `before` across the same side. */
  lemma AreaStep(prevArea: real, stripArea: real, before: real, share: real, after: real, cross: real)
    requires prevArea == Area(before, cross) && stripArea == Area(share, cross) && after == before + share
    ensures prevArea + stripArea == Area(after, cross)
  {
  }

  // ----- the children's strips partition the parent -----

  /**
   * The children's rectangles are strips across the parent: the first starts at
   * the parent's corner, each starts where the previous one ends, and the last
   * ends at the parent's far side.
   */
  lemma Partition(h: Hierarchy, width: real, height: real, x: real, y: real, rotate: bool)
    requires h.Node? && h.children != [] && ChildValue(h) != 0.0
    ensures ChildFrame(h, 0, width, height, x, y, rotate).x == x
    ensures ChildFrame(h, 0, width, height, x, y, rotate).y == y
    ensures forall k :: 0 <= k < |h.children| - 1 ==>
              Abuts(ChildFrame(h, k, width, height, x, y, rotate), ChildFrame(h, k + 1, width, height, x, y, rotate), rotate)
    ensures var last := ChildFrame(h, |h.children| - 1, width, height, x, y, rotate);
            if rotate then last.y + last.height == y + height && last.x == x && last.width == width
            else last.x + last.width == x + width && last.y == y && last.height == height
  {
    var n := |h.children|;
    var sorted := Sorted(h);
    var extent := Extent(width, height, rotate);
    OffsetCover(h, extent);
    assert Offset(sorted, n, extent, ChildValue(h)) ==
           Offset(sorted, n - 1, extent, ChildValue(h)) + Share(extent, ChildValue(sorted[n - 1]), ChildValue(h));
  }

  /** Every child's value is at least zero. */
  predicate NonNegativeChildren(h: Hierarchy)
    requires h.Node?
  {
    forall i :: 0 <= i < |h.children| ==> ChildValue(h.children[i]) >= 0.0
  }

  /** With non-negative values and sides, each child's strip lies inside the parent. */
  lemma FramesInside(h: Hierarchy, width: real, height: real, x: real, y: real, rotate: bool)
    requires h.Node? && h.children != [] && ChildValue(h) != 0.0
    requires NonNegativeChildren(h) && 0.0 <= width && 0.0 <= height
    ensures forall k :: 0 <= k < |h.children| ==>
              Inside(ChildFrame(h, k, width, height, x, y, rotate), Frame(x, y, width, height))
  {
    var n := |h.children|;
    var sorted := Sorted(h);
    var extent := Extent(width, height, rotate);
    var total := ChildValue(h);
    SortedNonNegative(h);
    NodeValue(h);
    SumByNonNegative(h.children, ChildValue);
    OffsetCover(h, extent);
    forall k | 0 <= k < n
      ensures Inside(ChildFrame(h, k, width, height, x, y, rotate), Frame(x, y, width, height))
    {
      OffsetBounds(sorted, k, n, extent, total);
      ShareNonNegative(extent, ChildValue(sorted[k]), total);
      StripInside(x, y, width, height, Offset(sorted, k, extent, total), Share(extent, ChildValue(sorted[k]), total), rotate);
    }
  }

  /** A strip `[start, start + size)` of the split axis inside `[0, extent]` lies inside the frame. */
  lemma StripInside(x: real, y: real, width: real, height: real, start: real, size: real, rotate: bool)
    requires 0.0 <= width && 0.0 <= height && 0.0 <= start && 0.0 <= size
    requires start + size <= Extent(width, height, rotate)
    ensures Inside(Slice(x, y, width, height, start, size, rotate), Frame(x, y, width, height))
  {
  }

  lemma SortedNonNegative(h: Hierarchy)
    requires h.Node? && NonNegativeChildren(h)
    ensures forall k :: 0 <= k < |h.children| ==> ChildValue(Sorted(h)[k]) >= 0.0
  {
    forall k | 0 <= k < |h.children| ensures ChildValue(Sorted(h)[k]) >= 0.0 {
      var c := Sorted(h)[k];
      assert c in h.children;
      var j :| 0 <= j < |h.children| && h.children[j] == c;
    }
  }

  /** A share of a positive total is non-negative when the value and extent are. */
  lemma ShareNonNegative(extent: real, value: real, total: real)
    requires total > 0.0 && extent >= 0.0 && value >= 0.0
    ensures Share(extent, value, total) >= 0.0
  {
    assert value / total >= 0.0;
  }

  /** The offsets of non-negative children never decrease. */
  lemma {:induction false} OffsetBounds(cs: seq<Hierarchy>, k: nat, n: nat, extent: real, total: real)
    requires k < n <= |cs| && total > 0.0 && extent >= 0.0
    requires forall i :: 0 <= i < |cs| ==> ChildValue(cs[i]) >= 0.0
    ensures 0.0 <= Offset(cs, k, extent, total)
    ensures Offset(cs, k, extent, total) + Share(extent, ChildValue(cs[k]), total) <= Offset(cs, n, extent, total)
    decreases n - k
  {
    OffsetNonNegative(cs, k, extent, total);
    if k + 1 < n {
      OffsetBounds(cs, k + 1, n, extent, total);
      ShareNonNegative(extent, ChildValue(cs[k + 1]), total);
    }
  }

  lemma {:induction false} OffsetNonNegative(cs: seq<Hierarchy>, k: nat, extent: real, total: real)
    requires k <= |cs| && total > 0.0 && extent >= 0.0
    requires forall i :: 0 <= i < |cs| ==> ChildValue(cs[i]) >= 0.0
    ensures 0.0 <= Offset(cs, k, extent, total)
  {
    if k > 0 {
      OffsetNonNegative(cs, k - 1, extent, total);
      ShareNonNegative(extent, ChildValue(cs[k - 1]), total);
    }
  }

  /** Children are laid out smallest first: the strips never shrink along the split axis. */
  lemma SlicesAscending(h: Hierarchy, width: real, height: real, x: real, y: real, rotate: bool)
    requires h.Node? && ChildValue(h) > 0.0 && 0.0 <= Extent(width, height, rotate)
    ensures forall i, j :: 0 <= i < j < |h.children| ==>
              Extent(ChildFrame(h, i, width, height, x, y, rotate).width, ChildFrame(h, i, width, height, x, y, rotate).height, rotate) <=
              Extent(ChildFrame(h, j, width, height, x, y, rotate).width, ChildFrame(h, j, width, height, x, y, rotate).height, rotate)
  {
    var sorted := Sorted(h);
    var extent := Extent(width, height, rotate);
    var total := ChildValue(h);
    forall i, j | 0 <= i < j < |h.children|
      ensures Extent(ChildFrame(h, i, width, height, x, y, rotate).width, ChildFrame(h, i, width, height, x, y, rotate).height, rotate) <=
              Extent(ChildFrame(h, j, width, height, x, y, rotate).width, ChildFrame(h, j, width, height, x, y, rotate).height, rotate)
    {
      ShareMonotone(extent, ChildValue(sorted[i]), ChildValue(sorted[j]), total);
    }
  }

  lemma ShareMonotone(extent: real, a: real, b: real, total: real)
    requires total > 0.0 && extent >= 0.0 && a <= b
    ensures Share(extent, a, total) <= Share(extent, b, total)
  {
    assert a / total <= b / total;
  }

  // ----- positions among siblings -----

  /** The rectangle knows how many siblings it has and where it stands among them. */
  predicate Positioned(r: Rect) {
    0.0 <= r.index < 1.0 && r.numSiblings >= 0
  }

  lemma FractionBounds(i: nat, n: nat)
    requires i < n
    ensures 0.0 <= i as real / n as real < 1.0
  {
    assert (i as real / n as real) * n as real == i as real;
  }

  /**
   * Below a node with children, every rectangle records a non-negative count of
   * siblings and an `index` in `[0, 1)`: its position among them as a fraction.
   */
  lemma {:induction false} TileIndices(h: Hierarchy, siblings: nat, width: real, height: real, x: real, y: real,
                                       rotate: bool, index: real)
    requires Divisible(h) && !IsLeaf(h)
    ensures forall r :: r in Tiles(h, siblings, width, height, x, y, rotate, index) ==> Positioned(r)
    decreases h, 1
  {
    SlicesIndices(h, |h.children|, width, height, x, y, rotate);
  }

  lemma {:induction false} SlicesIndices(h: Hierarchy, k: nat, width: real, height: real, x: real, y: real, rotate: bool)
    requires Divisible(h) && h.Node? && h.children != [] && k <= |h.children|
    ensures forall r :: r in Slices(h, k, width, height, x, y, rotate) ==> Positioned(r)
    decreases h, 0, k
  {
    if k > 0 {
      var sorted := Sorted(h);
      var n := |sorted|;
      var c := sorted[k - 1];
      assert c in h.children;
      var j :| 0 <= j < |h.children| && h.children[j] == c;
      var f := ChildFrame(h, k - 1, width, height, x, y, rotate);
      var pos := (k - 1) as real / n as real;
      var prev := Slices(h, k - 1, width, height, x, y, rotate);
      var tiles := Tiles(c, n, f.width, f.height, f.x, f.y, !rotate, pos);
      assert Slices(h, k, width, height, x, y, rotate) == prev + tiles;
      SlicesIndices(h, k - 1, width, height, x, y, rotate);
      if IsLeaf(c) {
        FractionBounds(k - 1, n);
        assert tiles == [Rect(c.data.name, f.x, f.y, f.width, f.height, c.depth, c.data.value, n - 1, pos)];
      } else {
        TileIndices(c, n, f.width, f.height, f.x, f.y, !rotate, pos);
      }
    }
  }
}
