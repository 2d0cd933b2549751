/**
 * The MST class of js/MST.js: the complete graph over the data points and
 * Kruskal's algorithm on a DisjointSet.
 */
module Mst {
  import opened Sequences
  import opened DisjointSets

  /** A link `{weight, source, target}` between the ids of two data points. */
  datatype Edge = Edge(weight: real, source: Id, target: Id)

  /** A data point. `calculate` attaches the selected links incident to it. */
  class DataNode {
    const id: Id
    const xCoord: real
    const yCoord: real
    var links: seq<Edge>

    constructor (id: Id, xCoord: real, yCoord: real)
      ensures this.id == id && this.xCoord == xCoord && this.yCoord == yCoord && links == []
    {
      this.id, this.xCoord, this.yCoord := id, xCoord, yCoord;
      links := [];
    }
  }

  /** The result of `makeGraph`: the nodes and every directed link between two of them. */
  datatype Graph = Graph(nodes: seq<DataNode>, links: seq<Edge>)

  /** On the points of `ns`, `dist` is symmetric and never negative, as the Euclidean `distance` is. */
  predicate IsDistance(dist: (DataNode, DataNode) -> real, ns: seq<DataNode>) {
    forall i, j :: 0 <= i < |ns| && 0 <= j < |ns| ==> dist(ns[i], ns[j]) == dist(ns[j], ns[i]) >= 0.0
  }

  /** Links from `source` to every node of `targets` that is not the same object. */
  function EdgesFrom(source: DataNode, targets: seq<DataNode>, dist: (DataNode, DataNode) -> real): (r: seq<Edge>)
    ensures |r| == |targets| - multiset(targets)[source]
    ensures forall e :: e in r <==>
      exists t :: t in targets && t != source && e == Edge(dist(source, t), source.id, t.id)
  {
    if targets == [] then []
    else
      var rest := EdgesFrom(source, targets[1..], dist);
      assert targets == [targets[0]] + targets[1..];
      if targets[0] != source then [Edge(dist(source, targets[0]), source.id, targets[0].id)] + rest
      else rest
  }

  /** The `flatMap` over the sources. */
  function AllEdges(sources: seq<DataNode>, nodeList: seq<DataNode>, dist: (DataNode, DataNode) -> real): seq<Edge>
  {
    if sources == [] then []
    else EdgesFrom(sources[0], nodeList, dist) + AllEdges(sources[1..], nodeList, dist)
  }

  /** `makeGraph`: the complete directed graph over `nodeList`, weighted by `dist`. */
  function MakeGraph(nodeList: seq<DataNode>, dist: (DataNode, DataNode) -> real): (g: Graph)
    ensures g.nodes == nodeList
  {
    Graph(nodeList, AllEdges(nodeList, nodeList, dist))
  }

  /** The ids of the vertices, in order. */
  function Ids(vertices: seq<DataNode>): (ids: seq<Id>)
    ensures |ids| == |vertices| && forall i :: 0 <= i < |vertices| ==> ids[i] == vertices[i].id
  {
    seq(|vertices|, i requires 0 <= i < |vertices| => vertices[i].id)
  }

  /** The comparator `-(a.weight - b.weight)`: heaviest first. */
  function DescendingKey(e: Edge): real {
    -e.weight
  }

  /** The DisjointSet after `makeSet` of every id in turn: one singleton per distinct id. */
  function Init(ids: seq<Id>): (f: Forest)
    ensures Consistent(f)
    ensures f.index.Keys == set i | 0 <= i < |ids| :: ids[i]
    ensures forall a :: 0 <= a < |f.nodes| ==> f.nodes[a].parent == a
  {
    if ids == [] then Empty
    else
      var prefix := ids[..|ids| - 1];
      var prev := Init(prefix);
      AllRootsCanRegister(prev, ids[|ids| - 1]);
      var f := Register(prev, ids[|ids| - 1]);
      assert forall i :: 0 <= i < |ids| - 1 ==> ids[i] == prefix[i];
      assert f.index.Keys == (set i | 0 <= i < |ids| :: ids[i]) by {
        forall k | k in f.index.Keys ensures k in set i | 0 <= i < |ids| :: ids[i] {
          if k != ids[|ids| - 1] {
            var i :| 0 <= i < |prefix| && prefix[i] == k;
            assert ids[i] == k;
          }
        }
      }
      f
  }

  /** The state of the loop of `calculate`: the DisjointSet and the edges selected so far. */
  datatype Run = Run(forest: Forest, selected: seq<Edge>)

  /**
   * The `while` loop of `calculate` once `size() > 1` holds: pop the last
   * (cheapest) edge; select it and `union` its endpoints when their roots
   * differ; stop when no edge is left.
   */
  function Scan(f: Forest, edges: seq<Edge>, selected: seq<Edge>): (r: Run)
    requires Consistent(f)
    ensures Consistent(r.forest) && r.forest.index == f.index
    ensures selected <= r.selected && |r.selected| <= |selected| + |edges|
    ensures forall e :: e in r.selected ==> e in selected || e in edges
    decreases |edges|
  {
    if edges == [] then Run(f, selected)
    else
      var edge := edges[|edges| - 1];
      var rest := edges[..|edges| - 1];
      if Find(f, edge.source) != Find(f, edge.target) then
        Scan(Link(f, edge.source, edge.target), rest, selected + [edge])
      else
        Scan(f, rest, selected)
  }

  /** The links `calculate` selects for vertices with these ids and these candidate edges. */
  function Accepted(ids: seq<Id>, edges: seq<Edge>): (accepted: seq<Edge>)
    ensures |accepted| <= |edges|
    ensures forall e :: e in accepted ==> e in edges
  {
    var f := Init(ids);
    if |f.index| <= 1 then []
    else
      var sorted := SortBy(edges, DescendingKey);
      assert forall e :: e in sorted ==> e in edges by {
        forall e | e in sorted ensures e in edges {
          assert e in multiset(sorted);
        }
      }
      Scan(f, sorted, []).selected
  }

  /** `selectedEdges.filter(l => l.source === id || l.target === id)`. */
  function Incident(links: seq<Edge>, id: Id): (r: seq<Edge>)
    ensures forall e :: e in r <==> e in links && (e.source == id || e.target == id)
    ensures |r| <= |links|
  {
    if links == [] then []
    else
      var rest := Incident(links[..|links| - 1], id);
      var last := links[|links| - 1];
      assert links == links[..|links| - 1] + [last];
      if last.source == id || last.target == id then rest + [last] else rest
  }

  /** Lines 18-40 of `calculate`: Kruskal's algorithm on a DisjointSet. */
  method Kruskal(ids: seq<Id>, links: seq<Edge>) returns (selectedEdges: seq<Edge>)
    ensures selectedEdges == Accepted(ids, links)
  {
    var edgeGroups := MakeSets(ids);
    ghost var start := edgeGroups.Model();
    var edges := SortBy(links, DescendingKey);
    selectedEdges := [];
    var size := edgeGroups.Size();
    while |edges| > 0 && size > 1
      invariant edgeGroups.Valid() && edgeGroups.index == start.index && size == |start.index|
      invariant size > 1 ==>
        Scan(edgeGroups.Model(), edges, selectedEdges).selected == Scan(start, SortBy(links, DescendingKey), []).selected
      invariant size <= 1 ==> selectedEdges == []
      decreases |edges|
    {
      var edge := edges[|edges| - 1];
      edges := edges[..|edges| - 1];
      var sourceRoot := edgeGroups.FindRoot(edge.source);
      var targetRoot := edgeGroups.FindRoot(edge.target);
      if sourceRoot != targetRoot {
        edgeGroups.Union(edge.source, edge.target);
        selectedEdges := selectedEdges + [edge];
      }
      size := edgeGroups.Size();
    }
  }

  /** The first loop of `calculate`: a fresh DisjointSet with `makeSet` called on every id in order. */
  method MakeSets(ids: seq<Id>) returns (edgeGroups: DisjointSet)
    ensures fresh(edgeGroups) && edgeGroups.Valid() && edgeGroups.Model() == Init(ids)
  {
    edgeGroups := new DisjointSet();
    for i := 0 to |ids|
      invariant edgeGroups.Valid() && edgeGroups.Model() == Init(ids[..i])
    {
      assert ids[..i + 1][..i] == ids[..i];
      AllRootsCanRegister(edgeGroups.Model(), ids[i]);
      edgeGroups.MakeSet(ids[i]);
    }
    assert ids[..|ids|] == ids;
  }

  /** Lines 42-44 of `calculate`: give every vertex the selected links incident to its id. */
  method AttachLinks(vertices: seq<DataNode>, links: seq<Edge>)
    modifies set v | v in vertices
    ensures forall v :: v in vertices ==> v.links == Incident(links, v.id)
  {
    for i := 0 to |vertices|
      invariant forall j :: 0 <= j < i ==> vertices[j].links == Incident(links, vertices[j].id)
    {
      vertices[i].links := Incident(links, vertices[i].id);
    }
  }

  /**
   * `calculate`: the selected links of the complete graph over `data`, and
   * each vertex's `links` set to the selected links incident to its id.
   */
  method Calculate(data: seq<DataNode>, dist: (DataNode, DataNode) -> real) returns (nodes: seq<DataNode>, links: seq<Edge>)
    modifies set v | v in data
    ensures nodes == data
    ensures links == Accepted(Ids(data), MakeGraph(data, dist).links)
    ensures forall v :: v in data ==> v.links == Incident(links, v.id)
  {
    var graph := MakeGraph(data, dist);
    links := Kruskal(Ids(graph.nodes), graph.links);
    AttachLinks(graph.nodes, links);
    nodes := graph.nodes;
  }
}
