# DataVis2 analytics core in Dafny

This project models the three computational components behind the
DataVis2 visualisations and proves properties of them:

- **Minimum spanning tree** (`js/MST.js`). `makeGraph` builds the complete
  directed graph over the data points, weighted by a distance. `calculate`
  runs Kruskal's algorithm on a `DisjointSet` of `GraphNode`s (union by
  rank, no path compression). It returns the selected links and attaches
  to every point the selected links incident to it.
- **Outlying measure** (`js/Scagnostics.js`). `quantile` sorts an array in
  place and interpolates linearly between the two nearest ranks.
  `calculateOutlying` takes the weights above the upper Tukey fence
  `q75 + 1.5 * (q75 - q25)` and returns their share of the total weight.
- **Slice-and-dice treemap** (`treemap/main.js`). `getChildValue` sums a
  hierarchy bottom-up. `assignSpace` cuts a rectangle into one strip per
  child, smallest child first, with each strip proportional to the child's
  value. It alternates the cutting axis at each level and returns one
  rectangle per leaf.

Modules:

| file | module | contents |
|---|---|---|
| `wrappers.dfy` | `Wrappers` | `Option` |
| `sequences.dfy` | `Sequences` | stable sort by a numeric key (the `Array.prototype.sort` comparators), sums |
| `disjoint_set.dfy` | `DisjointSets` | `GraphNode` arena, `Forest` value, `DisjointSet` class |
| `mst.dfy` | `Mst` | `Edge`, `DataNode`, `makeGraph`, the Kruskal loop, `calculate` |
| `mst_properties.dfy` | `MstProperties` | graph size and symmetry, forest, spanning and edge-count lemmas |
| `mst_weights.dfy` | `MstWeights` | selection order by weight and the cycle property |
| `scagnostics.dfy` | `Scagnostics` | `quantile` on an array, `calculateOutlying`, lemmas |
| `treemap.dfy` | `Treemap` | `Hierarchy`, `getChildValue`, `assignSpace` |
| `treemap_properties.dfy` | `TreemapProperties` | leaf count, area, partition, containment and order lemmas |

### Modelling notes

- **GraphNode identity.** A `GraphNode` is a heap object whose `parent` is
  another object. The model keeps every GraphNode ever allocated in an arena
  `nodes: seq<GraphNode>`: a position is an object identity and `parent` is a
  position. `index` is the DisjointSet's `Map` from id to node position.
- **Re-registering an id.** `makeSet` on an id that is already registered
  allocates a new node and leaves the old one in the arena, as the JavaScript
  does.
- **Distance.** `distance` (a `Math.sqrt`) is a parameter `dist`. Only the
  lemma about link symmetry assumes it is symmetric and non-negative.
- **Numbers.** Numbers are exact reals. Where JavaScript yields `undefined`,
  `NaN` or an infinity, the Scagnostics model yields `None`. This covers the
  quantile of an empty array and the measure when the total weight is 0.
- **Sorting.** `Array.prototype.sort` with a numeric comparator is modelled
  as an insertion sort by key. It is stable (`Sequences.SortByStable`), as
  `Array.prototype.sort` is since ECMAScript 2019.
- **Treemap sibling count.** `assignSpace` reads
  `hierarchy.parent.children.length`. The model passes that count as the
  parameter `siblings`.
- **Treemap depth.** `depth` is copied from the hierarchy into the rectangles
  as given. The model does not require a child's depth to be its parent's
  plus one, so the treemap lemmas hold for any depth labelling.

### Notable behaviour of the code

- **No path compression.** `findRoot` only walks up the parent chain.
- **`size()` counts registered ids, not disjoint sets**, although its doc
  comment (js/MST.js:140-143) calls it the number of disjoint sets. So in `calculate`
  the guard `size() > 1` never becomes false once two ids are registered,
  and only running out of edges ends the loop.
  `MstProperties.OneSetRejectsAll` proves that once a single set remains,
  the loop rejects every further edge and selects nothing more.
- **`degree` is never updated.** `GraphNode.degree` stays 0 (an invariant of
  `DisjointSets.Consistent`), and points get no `degree` at all.
- **Division by zero is not guarded.** For a zero total weight the code
  returns `NaN` (js/Scagnostics.js:22): the model returns `None`. Treemap nodes with a zero
  total are excluded by `Treemap.Divisible`; see "Left out".

## Model

| member | source | states |
|---|---|---|
| DisjointSets.Root | js/MST.js:106-110 | following `parent` from any node ends at a self-parented node whose rank is at least the start's; a root is its own root |
| DisjointSets.Find | js/MST.js:101-111 | `findRoot` is undefined (`None`) exactly for an unregistered id; otherwise it is the id registered at the root of that id's node, and that node is self-parented |
| DisjointSets.Register | js/MST.js:92-94 | `makeSet(id)` appends a self-parented rank-0 node and maps `id` to it; afterwards `id` is its own root, every other id keeps its root, and the structure stays consistent |
| DisjointSets.Link | js/MST.js:118-138 | `union` changes nothing when either root is missing or both are the same; otherwise the lower-rank root is hung under the higher one, or y's root under x's on a tie, which raises x's root rank by one; no other parent or rank changes, and every node below the hung root gets the new root |
| DisjointSets.LinkFind | js/MST.js:118-138 | after `union(x, y)`, x and y share a root that was one of their old roots; ids in either set move to it and all other ids keep their root |
| DisjointSets.LinkReps | js/MST.js:118-138 | a `union` of two different sets retires exactly one old root, so the number of disjoint sets drops by one |
| DisjointSets.DisjointSet.constructor | js/MST.js:88-90 | a new DisjointSet has an empty index |
| DisjointSets.DisjointSet.MakeSet | js/MST.js:92-94 | the object's new state is `Register` of its old state and stays valid |
| DisjointSets.DisjointSet.FindRoot | js/MST.js:101-111 | the loop up the parent chain returns `Find` of the current state and changes nothing |
| DisjointSets.DisjointSet.Union | js/MST.js:118-138 | the object's new state is `Link` of its old state and stays valid |
| DisjointSets.DisjointSet.Size | js/MST.js:144-146 | `size()` is the number of registered ids |
| Mst.EdgesFrom | js/MST.js:60 | the links from one source are exactly one per target that is not the same object, weighted by `dist`; there is one fewer than the targets for each occurrence of the source among them |
| Mst.AllEdges | js/MST.js:59-61 | the `flatMap` over the sources of each source's `EdgesFrom`; `MstProperties.MakeGraphLinks` proves a link is in it exactly when it joins two different points with their distance as weight, and `MstProperties.MakeGraphCount` proves there are n * (n - 1) of them |
| Mst.MakeGraph | js/MST.js:55-63 | the graph's nodes are the input list itself |
| Mst.Init | js/MST.js:24-26 | after `makeSet` of every id, the index holds exactly the ids of the vertices and every node is its own parent |
| Mst.Scan | js/MST.js:33-40 | the Kruskal loop keeps the index and consistency, only appends to the selection, and selects only scanned edges, at most one per edge |
| Mst.Accepted | js/MST.js:21-40 | the links `calculate` selects: none when at most one id is registered, else `Scan` of the links sorted heaviest first; every selected link is a candidate link and there are never more selected links than candidates; `MstProperties.SpanningTree` and `MstWeights.CycleProperty` state what the selection is |
| Mst.Incident | js/MST.js:42 | the filter keeps exactly the links whose source or target is the id |
| Mst.MakeSets | js/MST.js:21-26 | a fresh DisjointSet whose state is `Init` of the ids |
| Mst.Kruskal | js/MST.js:17-40 | the while loop over the DisjointSet object, guarded by `size() > 1`, selects exactly `Accepted(ids, links)` |
| Mst.AttachLinks | js/MST.js:42 | every vertex's `links` becomes the selected links incident to its id |
| Mst.Calculate | js/MST.js:16-48 | `calculate` returns the input nodes and `Accepted` of the complete graph's links, and attaches to each node its incident selected links |
| MstProperties.MakeGraphCount | js/MST.js:55-63 | over n distinct points the complete graph has n * (n - 1) links |
| MstProperties.MakeGraphLinks | js/MST.js:59-61 | a link is in the graph exactly when it joins two different points of the list with their distance as weight |
| MstProperties.MakeGraphSymmetric | js/MST.js:59-75 | with a symmetric non-negative distance, every link has a non-negative weight and a reverse link of equal weight |
| MstProperties.LinkKeepsSame | js/MST.js:118-138 | `union` never separates two ids of one set |
| MstProperties.LinkJoined | js/MST.js:118-138 | after `union` of an edge's endpoints, that edge and every previously joined edge lie within one set |
| MstProperties.LinkSpans | js/MST.js:118-138 | when the selected edges connect the members of each set, adding the united edge keeps this true after the union |
| MstProperties.ScanKeepsSame | js/MST.js:33-40 | the loop never separates two ids of one set |
| MstProperties.ScanJoins | js/MST.js:33-40 | at the end of the loop every scanned edge, selected or not, lies within one set |
| MstProperties.ScanCount | js/MST.js:33-40 | selected edges plus remaining sets stay constant: each selected edge merges two sets |
| MstProperties.ScanAcyclic | js/MST.js:33-40 | no selected edge joins two ids that the edges selected before it already connect |
| MstProperties.ScanSpans | js/MST.js:33-40 | members of one set are connected by the selected edges |
| MstProperties.OneSetRejectsAll | js/MST.js:33-40 | from a state with at most one set, scanning any covered edges returns that state unchanged: no edge is selected and the forest stays as it is |
| MstProperties.InitFind | js/MST.js:24-26 | right after the `makeSet` loop every id is its own root |
| MstProperties.InitReps | js/MST.js:24-26 | right after the `makeSet` loop there is one set per distinct id |
| MstProperties.InitSpans | js/MST.js:24-26 | the singleton sets are trivially spanned by no edges |
| MstProperties.SortedMembers | js/MST.js:28-31 | sorting the links descending by weight keeps exactly the same links |
| MstProperties.SortedConnects | js/MST.js:28-31 | the sorted links cover the same ids, and two ids are connected by the sorted links exactly when they are connected by the unsorted ones |
| MstProperties.AcceptedForest | js/MST.js:16-40 | the selected links are input links, form a forest, and connect every two ids the input links connect |
| MstProperties.ScanOneSet | js/MST.js:33-40 | when the scanned edges connect every two elements, the loop ends with a single set |
| MstProperties.ScanTree | js/MST.js:33-40 | scanning connecting edges over singleton sets selects one edge fewer than there are ids |
| MstProperties.AcceptedCount | js/MST.js:16-40 | when the links connect all ids, `calculate` selects one link fewer than there are distinct ids (none for at most one id) |
| MstProperties.GraphConnected | js/MST.js:55-63 | the complete graph mentions exactly the ids of the points and connects every two of them |
| MstProperties.SpanningTree | js/MST.js:16-63 | `calculate` returns a spanning tree of the points: links of the complete graph, one fewer than the distinct ids, no cycle, every two points connected |
| MstWeights.ScanAscending | js/MST.js:33-40 | over links sorted heaviest first, the loop that pops from the end selects links in non-decreasing weight order |
| MstWeights.ScanLight | js/MST.js:33-40 | every scanned link has its endpoints joined by selected links no heavier than it: itself when selected, else the lighter links selected before it |
| MstWeights.AcceptedAscending | js/MST.js:28-40 | `calculate` selects its links in non-decreasing weight order |
| MstWeights.AcceptedLight | js/MST.js:28-40 | the endpoints of every candidate link are joined by selected links no heavier than that link |
| MstWeights.CycleProperty | js/MST.js:16-63 | over the complete graph, the selection is lightest first, and every link of the graph has its endpoints joined by selected links no heavier than it |
| Sequences.SortByStable | js/MST.js:29-31 | the sort keeps the relative order of links with equal weights, so it is stable as `Array.prototype.sort` is |
| Scagnostics.Position | js/Scagnostics.js:29 | for q in [0, 1] the fractional rank lies in [0, n - 1] |
| Scagnostics.Interpolate | js/Scagnostics.js:33 | the interpolated value lies between the two neighbouring ranks' values |
| Scagnostics.QuantileOf | js/Scagnostics.js:26-37 | the quantile of an empty array is undefined (`None`); for q in [0, 1] and a non-empty array it is a number |
| Scagnostics.SortInPlace | js/Scagnostics.js:27-28 | the caller's array is replaced by its ascending sort |
| Scagnostics.Quantile | js/Scagnostics.js:26-37 | `quantile` sorts the caller's array in place and returns `QuantileOf` the sorted contents |
| Scagnostics.Weights | js/Scagnostics.js:7-8 | the weights are the links' weights, in order |
| Scagnostics.CollectWeights | js/Scagnostics.js:7-8 | a fresh array holding `Weights` of the links |
| Scagnostics.Fence | js/Scagnostics.js:15 | the fence `q75 + 1.5 * (q75 - q25)` is a number exactly when both quartiles are, and lies at or above the upper quartile whenever q25 <= q75 |
| Scagnostics.LongWeights | js/Scagnostics.js:13-18 | the weights above the fence, in their sorted order, never more than the weights; `LongWeightsMembers` proves that a weight is kept exactly when it is one of the weights and lies above the fence |
| Scagnostics.CollectLong | js/Scagnostics.js:13-18 | the pushed weights are `LongWeights` of the array under the fence of the two quartiles |
| Scagnostics.Outlying | js/Scagnostics.js:6-24 | the value of `calculateOutlying`: the long weights' sum over the total, `None` for a zero total; `OutlyingUndefined`, `OutlyingShare` and `UniformNotOutlying` state when it is undefined, that it is a share in [0, 1], and that equal weights give 0 |
| Scagnostics.CalculateOutlying | js/Scagnostics.js:6-24 | the method returns `Outlying` of the link weights |
| Scagnostics.LongWeightsMembers | js/Scagnostics.js:13-18 | a weight is long exactly when it is one of the weights and lies above the fence |
| Scagnostics.NoLongWeights | js/Scagnostics.js:13-18 | with no weight above the fence, no weight is long |
| Scagnostics.QuantileExamples | js/Scagnostics.js:26-37 | worked values: one weight, the median and lower quartile of four weights, and no weights |
| Scagnostics.InterpolateMonotone | js/Scagnostics.js:33 | a larger fraction never gives a smaller interpolated value |
| Scagnostics.QuantileNear | js/Scagnostics.js:29-36 | the quantile lies between the value at its floor rank and the next value, or equals the last value |
| Scagnostics.QuantileBounds | js/Scagnostics.js:26-37 | the quantile lies between the smallest and the largest weight |
| Scagnostics.QuantileAtRank | js/Scagnostics.js:29-36 | at a whole rank k the quantile is exactly the k-th smallest weight |
| Scagnostics.QuantileMonotone | js/Scagnostics.js:26-37 | a larger q never gives a smaller quantile |
| Scagnostics.LongAboveUpperQuartile | js/Scagnostics.js:10-18 | every long weight lies above the upper quartile |
| Scagnostics.LongSumBounded | js/Scagnostics.js:13-21 | with no negative weight, the long weights sum to between zero and the total |
| Scagnostics.OutlyingUndefined | js/Scagnostics.js:20-22 | the measure is `NaN` (`None`) exactly when the total weight is zero, as with no links at all |
| Scagnostics.OutlyingShare | js/Scagnostics.js:6-24 | for non-negative weights with a positive total, the measure is a share in [0, 1] |
| Scagnostics.UniformFence | js/Scagnostics.js:10-15 | when all weights equal c, both quartiles are c and so is the fence |
| Scagnostics.UniformNotOutlying | js/Scagnostics.js:6-24 | when every link has the same positive weight, no weight lies above the fence and the measure is 0 |
| Treemap.Sorted | treemap/main.js:124-126 | the children in layout order are a permutation of the children (same multiset), ascending by value |
| Treemap.ChildValue | treemap/main.js:146-151 | `getChildValue`: a `Leaf`'s own value, else the `reduce` over the children from 0 (0 for an empty array); `TreemapProperties.NodeValue` proves it is the sum of the children's values in either order, and `TreemapProperties.ChildValueLeaves` that it is the sum of the values of the `Leaf` nodes below |
| Treemap.Tiles | treemap/main.js:106-140 | the result of `assignSpace`: one rectangle with the node's name, value, depth, sibling count and index for a node without children, else `Slices` of all its children; `TreemapProperties.TilesCount`, `TilesData`, `TilesArea` and `TileIndices` state its count, contents, area and indices |
| Treemap.Slices | treemap/main.js:123-140 | the `flatMap` over the first k children in ascending-value order, each laid out by `Tiles` in its strip `ChildFrame` with the cutting axis turned and index k / n; `TreemapProperties.SlicesCount`, `SlicesData` and `SlicesArea` state its count, contents and area |
| Treemap.AssignSpace | treemap/main.js:106-140 | `assignSpace` returns `Tiles`: one rectangle for a node without children, else the concatenated layouts of the children in their strips |
| Treemap.PlaceChild | treemap/main.js:127-139 | one `flatMap` callback advances `other` by the child's share and contributes the child's layout in its strip |
| TreemapProperties.NodeValue | treemap/main.js:146-151 | a node's value is the sum of its children's values, in either order |
| TreemapProperties.ChildValueLeaves | treemap/main.js:146-151 | `getChildValue` is the sum of the values of the `Leaf` nodes below the node |
| TreemapProperties.ChildSumLeaves | treemap/main.js:148-149 | the `reduce` over the first k children is the sum of their leaves' values |
| TreemapProperties.OffsetSum | treemap/main.js:129-137 | after k children, `other` is the extent times their share of the total value |
| TreemapProperties.OffsetCover | treemap/main.js:121-139 | after the last child, `other` equals the full extent of the split axis |
| TreemapProperties.TilesCount | treemap/main.js:106-140 | `assignSpace` returns as many rectangles as there are nodes without children |
| TreemapProperties.TilesData | treemap/main.js:106-140 | `assignSpace` gives every node without children exactly one rectangle carrying its `name` and `value`: the rectangles' `{name, value}` pairs are, as a multiset, the data of the nodes without children, an empty `Node` included |
| TreemapProperties.SlicesData | treemap/main.js:123-140 | the first k children in layout order contribute exactly the data of the nodes without children below them |
| TreemapProperties.SlicesCount | treemap/main.js:123-140 | the first k children contribute one rectangle per node without children below them |
| TreemapProperties.TilesArea | treemap/main.js:106-140 | the rectangles' areas add up to the area of the rectangle being split |
| TreemapProperties.SlicesArea | treemap/main.js:123-140 | the first k children's rectangles cover the area of the strips up to the running offset |
| TreemapProperties.Partition | treemap/main.js:129-138 | the first strip starts at the parent's corner, each next strip starts where the previous one ends with the same cross extent, and the last ends at the far side |
| TreemapProperties.FramesInside | treemap/main.js:129-138 | with non-negative values and sides, every child's strip lies inside the parent rectangle |
| TreemapProperties.SlicesAscending | treemap/main.js:124-138 | with a positive total, strips never shrink along the split axis: smaller children come first |
| TreemapProperties.TileIndices | treemap/main.js:116-117 | below a node with children, every rectangle has a non-negative sibling count and an `index` in [0, 1) |

## Left out

- `distance`: `Math.sqrt` is not modelled; the distance is the parameter `dist` of `MakeGraph` and `Calculate`.
- IEEE-754 doubles: arithmetic is on exact reals, so rounding in sums, ratios and `other + height - height` is not modelled.
- `NaN`, `undefined` and infinities: these are `None` in the Scagnostics model and are excluded by a precondition in the treemap model.
- MstProperties.SpanningTree: does not state that the tree's total weight is minimal. `MstWeights.CycleProperty` proves the cycle property and the lightest-first selection order. The exchange argument that turns the cycle property into minimality over all spanning trees is not modelled: it would need a theory of arbitrary spanning trees and their weight sums beyond `calculate` itself.
- DisjointSets.Register: requires `CanRegister`, the same restriction as `DisjointSet.MakeSet` below. JavaScript's `makeSet` also accepts re-registering an id whose old node still has other ids below it, but then a later `union` could hang a non-root and `findRoot` might not end. `calculate` registers every id before any `union`, where `CanRegister` always holds (`DisjointSets.AllRootsCanRegister`).
- DisjointSets.DisjointSet.MakeSet: requires `CanRegister`, so re-registering an id may not orphan other ids hanging below its old node. Without this, a later `union` could hang a non-root and `findRoot` might not end. `calculate` only calls `makeSet` before any `union`, where this always holds.
- Treemap.AssignSpace: requires `Divisible`, a non-zero value at every node with children. A zero total makes JavaScript produce `NaN` or infinite geometry, which is not modelled.
- Treemap.AssignSpace: a root without children reads `hierarchy.parent` of a node with no parent and throws a `TypeError`; the model takes the sibling count as a parameter instead.
- Mst.MakeGraph: states only that the nodes are unchanged; the links are described by `MstProperties.MakeGraphLinks` and `MstProperties.MakeGraphCount`.
- `Mst.DataNode`: only `id`, the coordinates and `links` are modelled; `isOutlier` and the display fields of the points belong to the plotting code.
- `MST` class constructor: it only stores `data`, which `Mst.Calculate` takes as a parameter.
- Outlier flagging by MST degree and every consumer of the results (scatter plot, parallel coordinates, `treeView`, `onLoad`, the DOM and the d3 hierarchy construction) are not part of this model.
