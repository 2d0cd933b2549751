/**
 * The union-find structure of js/MST.js: `GraphNode` and `DisjointSet`.
 *
 * GraphNode objects live on the heap and point at each other through
 * `parent`. The model keeps every GraphNode ever allocated in an arena
 * `nodes` (position = object identity), so a parent reference is a position.
 * `index` is the DisjointSet's Map from id to the position of the node
 * registered under that id. Union by rank, no path compression.
 */
module DisjointSets {
  import opened Wrappers

  type Id = int

  /** A GraphNode object: its id, the position of its parent, its rank and its (never updated) degree. */
  datatype GraphNode = GraphNode(id: Id, parent: nat, rank: nat, degree: nat)

  /** The value of a DisjointSet: the arena of GraphNode objects and the `index` map. */
  datatype Forest = Forest(nodes: seq<GraphNode>, index: map<Id, nat>)

  const Empty: Forest := Forest([], map[])

  /** A bound on all ranks; it measures how far a walk up the parents can still go. */
  function MaxRank(ns: seq<GraphNode>): (m: nat)
    ensures forall a :: 0 <= a < |ns| ==> ns[a].rank <= m
  {
    if ns == [] then 0
    else
      var m := MaxRank(ns[..|ns| - 1]);
      assert forall a :: 0 <= a < |ns| - 1 ==> ns[a] == ns[..|ns| - 1][a];
      if ns[|ns| - 1].rank > m then ns[|ns| - 1].rank else m
  }

  /** Every parent reference stays in the arena. */
  predicate Closed(ns: seq<GraphNode>) {
    forall a :: 0 <= a < |ns| ==> ns[a].parent < |ns|
  }

  /** The node at `a` is a root or has a strictly smaller rank than its parent. */
  predicate Climbs(ns: seq<GraphNode>, a: nat)
    requires Closed(ns) && a < |ns|
  {
    ns[a].parent != a ==> ns[a].rank < ns[ns[a].parent].rank
  }

  /** Parents stay in the arena and climb strictly in rank, so every walk up ends at a root. */
  predicate Ranked(ns: seq<GraphNode>) {
    Closed(ns) && forall a {:trigger Climbs(ns, a)} :: 0 <= a < |ns| ==> Climbs(ns, a)
  }

  /** The self-parented node reached by following parents from `a`. */
  function Root(ns: seq<GraphNode>, a: nat): (r: nat)
    requires Ranked(ns) && a < |ns|
    ensures r < |ns| && ns[r].parent == r
    ensures ns[a].parent == a ==> r == a
    ensures ns[a].rank <= ns[r].rank
    decreases MaxRank(ns) - ns[a].rank
  {
    assert Climbs(ns, a);
    if ns[a].parent == a then a else Root(ns, ns[a].parent)
  }

  /** The node at `a` is the one currently registered under its own id. */
  predicate Registered(f: Forest, a: nat)
    requires a < |f.nodes|
  {
    f.nodes[a].id in f.index && f.index[f.nodes[a].id] == a
  }

  /**
   * The invariant of a DisjointSet: parents climb in rank, degrees stay 0,
   * `index` maps each id to a node carrying that id, and the root of every
   * registered node is itself registered under its own id.
   */
  predicate Consistent(f: Forest) {
    && Ranked(f.nodes)
    && (forall a :: 0 <= a < |f.nodes| ==> f.nodes[a].degree == 0)
    && (forall k :: k in f.index ==> f.index[k] < |f.nodes| && f.nodes[f.index[k]].id == k)
    && (forall k {:trigger RootRegistered(f, k)} :: k in f.index ==> RootRegistered(f, k))
  }

  /** The root of the node registered under `k` is registered under its own id. */
  predicate RootRegistered(f: Forest, k: Id)
    requires Ranked(f.nodes) && k in f.index && f.index[k] < |f.nodes|
  {
    Registered(f, Root(f.nodes, f.index[k]))
  }

  /** `findRoot`: `None` (undefined) for an unregistered id, else the id of the root of its node. */
  function Find(f: Forest, id: Id): (r: Option<Id>)
    requires Consistent(f)
    ensures r.None? <==> id !in f.index
    ensures r.Some? ==> r.value in f.index && f.index[r.value] == Root(f.nodes, f.index[id])
    ensures r.Some? ==> f.nodes[f.index[r.value]].parent == f.index[r.value]
  {
    if id !in f.index then None
    else
      assert RootRegistered(f, id);
      Some(f.nodes[Root(f.nodes, f.index[id])].id)
  }

  /** Both ids are registered and have the same root. */
  predicate Same(f: Forest, a: Id, b: Id)
    requires Consistent(f)
  {
    Find(f, a).Some? && Find(f, a) == Find(f, b)
  }

  /** The ids of the roots: one per disjoint set. */
  function Reps(f: Forest): (r: set<Id>)
    requires Consistent(f)
    ensures r <= f.index.Keys
  {
    set k | k in f.index :: Find(f, k).value
  }

  /**
   * `makeSet` may overwrite an id only when no other registered id still hangs
   * below the node it replaces.
   */
  predicate CanRegister(f: Forest, id: Id)
    requires Consistent(f)
  {
    id in f.index ==>
      forall k :: k in f.index && k != id ==> Root(f.nodes, f.index[k]) != f.index[id]
  }

  lemma {:induction false} RootAppend(ns: seq<GraphNode>, n: GraphNode, a: nat)
    requires Ranked(ns) && Ranked(ns + [n]) && a < |ns|
    ensures Root(ns + [n], a) == Root(ns, a)
    decreases MaxRank(ns) - ns[a].rank
  {
    if ns[a].parent != a {
      assert Climbs(ns, a);
      RootAppend(ns, n, ns[a].parent);
    }
  }

  /** Before any `union`, every node is its own root, so `makeSet` may register any id. */
  lemma AllRootsCanRegister(f: Forest, id: Id)
    requires Consistent(f) && forall a :: 0 <= a < |f.nodes| ==> f.nodes[a].parent == a
    ensures CanRegister(f, id)
  {
  }

  /** `makeSet(id)`: a fresh self-parented node of rank 0, registered under `id`. */
  function Register(f: Forest, id: Id): (r: Forest)
    requires Consistent(f) && CanRegister(f, id)
    ensures Consistent(r)
    ensures r.index == f.index[id := |f.nodes|]
    ensures r.nodes == f.nodes + [GraphNode(id, |f.nodes|, 0, 0)]
    ensures Find(r, id) == Some(id) && r.nodes[r.index[id]].rank == 0
    ensures forall k :: k != id ==> Find(r, k) == Find(f, k)
  {
    var n := |f.nodes|;
    var ns := f.nodes + [GraphNode(id, n, 0, 0)];
    var r := Forest(ns, f.index[id := n]);
    assert Ranked(ns) by {
      forall a | 0 <= a < |ns| ensures Climbs(ns, a) {
        if a < n {
          assert Climbs(f.nodes, a);
        }
      }
    }
    forall a | 0 <= a < n ensures Root(ns, a) == Root(f.nodes, a) {
      RootAppend(f.nodes, GraphNode(id, n, 0, 0), a);
    }
    forall k | k in r.index ensures RootRegistered(r, k) {
      if k != id {
        assert RootRegistered(f, k);
      }
    }
    r
  }

  /**
   * `union(x, y)`: looks up the nodes registered under the two roots' ids;
   * does nothing when either is missing or both are the same node; otherwise
   * the lower-rank root goes under the higher-rank one, and on a tie y's root
   * goes under x's root, whose rank grows by one.
   */
  function Link(f: Forest, x: Id, y: Id): (r: Forest)
    requires Consistent(f)
    ensures Consistent(r) && r.index == f.index && |r.nodes| == |f.nodes|
    ensures forall a :: 0 <= a < |f.nodes| ==> r.nodes[a].id == f.nodes[a].id
    ensures Find(f, x).None? || Find(f, y).None? || Find(f, x) == Find(f, y) ==> r == f
    ensures Find(f, x).Some? && Find(f, y).Some? && Find(f, x) != Find(f, y) ==>
      var a, b := f.index[Find(f, x).value], f.index[Find(f, y).value];
      var w := if f.nodes[a].rank < f.nodes[b].rank then b else a;
      var l := if w == a then b else a;
      && r.nodes[l].parent == w
      && (forall c :: 0 <= c < |f.nodes| && c != l ==> r.nodes[c].parent == f.nodes[c].parent)
      && r.nodes[w].rank == (if f.nodes[a].rank == f.nodes[b].rank then f.nodes[w].rank + 1 else f.nodes[w].rank)
      && (forall c :: 0 <= c < |f.nodes| && c != w ==> r.nodes[c].rank == f.nodes[c].rank)
      && (forall c :: 0 <= c < |f.nodes| ==>
            Root(r.nodes, c) == if Root(f.nodes, c) == l then w else Root(f.nodes, c))
  {
    var rx, ry := Find(f, x), Find(f, y);
    if rx.None? || ry.None? then f
    else
      var a, b := f.index[rx.value], f.index[ry.value];
      if a == b then f
      else
        var ns := f.nodes;
        var r :=
          if ns[a].rank < ns[b].rank then Forest(ns[a := ns[a].(parent := b)], f.index)
          else if ns[b].rank < ns[a].rank then Forest(ns[b := ns[b].(parent := a)], f.index)
          else Forest(ns[b := ns[b].(parent := a)][a := ns[a].(rank := ns[a].rank + 1)], f.index);
        var w := if ns[a].rank < ns[b].rank then b else a;
        var l := if ns[a].rank < ns[b].rank then a else b;
        AttachValid(f, r, w, l);
        r
  }

  /** Root of every node after the root `l` was hung below the root `w`. */
  lemma {:induction false} RootAfterAttach(ns: seq<GraphNode>, ns': seq<GraphNode>, w: nat, l: nat, c: nat)
    requires Ranked(ns) && Ranked(ns') && |ns'| == |ns| && c < |ns|
    requires w < |ns| && l < |ns| && w != l && ns[w].parent == w && ns[l].parent == l
    requires ns'[l].parent == w
    requires forall d :: 0 <= d < |ns| && d != l ==> ns'[d].parent == ns[d].parent
    ensures Root(ns', c) == if Root(ns, c) == l then w else Root(ns, c)
    decreases MaxRank(ns) - ns[c].rank
  {
    if c == l {
      assert Root(ns', w) == w;
    } else if ns[c].parent != c {
      assert Climbs(ns, c);
      RootAfterAttach(ns, ns', w, l, ns[c].parent);
    }
  }

  /** Hanging root `l` below root `w`, whose rank ends above `l`'s, keeps parents climbing in rank. */
  lemma AttachRanked(ns: seq<GraphNode>, ns': seq<GraphNode>, w: nat, l: nat)
    requires Ranked(ns) && |ns'| == |ns| && w < |ns| && l < |ns| && w != l
    requires ns[w].parent == w && ns[l].parent == l
    requires ns'[l] == ns[l].(parent := w) && ns'[w].parent == w
    requires ns[l].rank < ns'[w].rank && ns[w].rank <= ns'[w].rank
    requires forall d :: 0 <= d < |ns| && d != l && d != w ==> ns'[d] == ns[d]
    ensures Ranked(ns')
  {
    assert Closed(ns');
    forall a | 0 <= a < |ns'| ensures Climbs(ns', a) {
      if a != l && a != w {
        assert Climbs(ns, a);
      }
    }
  }

  /** After hanging root `l` below root `w`, exactly the nodes that reached `l` now reach `w`. */
  lemma AttachRoots(ns: seq<GraphNode>, ns': seq<GraphNode>, w: nat, l: nat)
    requires Ranked(ns) && Ranked(ns') && |ns'| == |ns|
    requires w < |ns| && l < |ns| && w != l && ns[w].parent == w && ns[l].parent == l
    requires ns'[l].parent == w
    requires forall d :: 0 <= d < |ns| && d != l ==> ns'[d].parent == ns[d].parent
    ensures forall c :: 0 <= c < |ns| ==> Root(ns', c) == if Root(ns, c) == l then w else Root(ns, c)
  {
    forall c | 0 <= c < |ns| ensures Root(ns', c) == if Root(ns, c) == l then w else Root(ns, c) {
      RootAfterAttach(ns, ns', w, l, c);
    }
  }

  /** Hanging root `l` below root `w` (with `w`'s rank possibly raised) keeps a forest valid. */
  lemma AttachValid(f: Forest, r: Forest, w: nat, l: nat)
    requires Consistent(f) && r.index == f.index && |r.nodes| == |f.nodes|
    requires w < |f.nodes| && l < |f.nodes| && w != l
    requires f.nodes[w].parent == w && f.nodes[l].parent == l && Registered(f, w) && Registered(f, l)
    requires f.nodes[l].rank < r.nodes[w].rank
    requires r.nodes[l] == f.nodes[l].(parent := w)
    requires r.nodes[w].id == f.nodes[w].id && r.nodes[w].parent == w && r.nodes[w].degree == 0
    requires f.nodes[w].rank <= r.nodes[w].rank
    requires forall d :: 0 <= d < |f.nodes| && d != l && d != w ==> r.nodes[d] == f.nodes[d]
    ensures Consistent(r)
    ensures forall c :: 0 <= c < |f.nodes| ==>
      Root(r.nodes, c) == if Root(f.nodes, c) == l then w else Root(f.nodes, c)
  {
    var ns, ns' := f.nodes, r.nodes;
    AttachRanked(ns, ns', w, l);
    AttachRoots(ns, ns', w, l);
    assert forall a :: 0 <= a < |ns| ==> ns'[a].id == ns[a].id && ns'[a].degree == 0;
    forall k | k in r.index ensures RootRegistered(r, k) {
      assert RootRegistered(f, k);
    }
  }

  /**
   * `union(x, y)` on registered ids merges exactly their two sets: afterwards
   * x and y share a root that is one of their old roots, every member of
   * either set has that root, and every other id keeps its root.
   */
  lemma LinkFind(f: Forest, x: Id, y: Id, k: Id)
    requires Consistent(f) && x in f.index && y in f.index
    ensures Find(Link(f, x, y), x) == Find(Link(f, x, y), y)
    ensures Find(Link(f, x, y), x) == Find(f, x) || Find(Link(f, x, y), x) == Find(f, y)
    ensures Find(Link(f, x, y), k) ==
      if Find(f, k) == Find(f, x) || Find(f, k) == Find(f, y) then Find(Link(f, x, y), x) else Find(f, k)
  {
    var r := Link(f, x, y);
    if Find(f, x) != Find(f, y) && k in f.index {
      var a, b := f.index[Find(f, x).value], f.index[Find(f, y).value];
      var c := f.index[k];
      assert Find(f, k) == Find(f, x) <==> Root(f.nodes, c) == a;
      assert Find(f, k) == Find(f, y) <==> Root(f.nodes, c) == b;
    }
  }

  /** The root id that `union(x, y)` leaves for the merged set. */
  function Kept(f: Forest, x: Id, y: Id): Id
    requires Consistent(f) && x in f.index && y in f.index
  {
    Find(Link(f, x, y), x).value
  }

  /** The other of the two old root ids: the one a successful `union(x, y)` retires. */
  function Gone(f: Forest, x: Id, y: Id): Id
    requires Consistent(f) && x in f.index && y in f.index
  {
    if Kept(f, x, y) == Find(f, x).value then Find(f, y).value else Find(f, x).value
  }

  lemma LinkRepsShrink(f: Forest, x: Id, y: Id, v: Id)
    requires Consistent(f) && x in f.index && y in f.index && Find(f, x) != Find(f, y)
    requires v in Reps(Link(f, x, y))
    ensures v in Reps(f) && v != Gone(f, x, y)
  {
    var r := Link(f, x, y);
    var k :| k in r.index && Find(r, k).value == v;
    LinkFind(f, x, y, k);
    LinkFind(f, x, y, x);
    var rx, ry := Find(f, x).value, Find(f, y).value;
    assert rx in Reps(f) && ry in Reps(f) && rx != ry;
    if Find(f, k) == Find(f, x) || Find(f, k) == Find(f, y) {
      assert v == Kept(f, x, y);
    } else {
      assert v == Find(f, k).value && v != rx && v != ry;
    }
  }

  lemma LinkRepsKeep(f: Forest, x: Id, y: Id, v: Id)
    requires Consistent(f) && x in f.index && y in f.index && Find(f, x) != Find(f, y)
    requires v in Reps(f) && v != Gone(f, x, y)
    ensures v in Reps(Link(f, x, y))
  {
    var r := Link(f, x, y);
    var k :| k in f.index && Find(f, k).value == v;
    LinkFind(f, x, y, k);
    LinkFind(f, x, y, x);
    if Find(f, k) == Find(f, x) || Find(f, k) == Find(f, y) {
      assert v == Kept(f, x, y);
      assert Find(r, x).value in Reps(r);
    } else {
      assert Find(r, k).value in Reps(r);
    }
  }

  /** A successful `union` retires exactly one root: one disjoint set fewer. */
  lemma LinkReps(f: Forest, x: Id, y: Id)
    requires Consistent(f) && x in f.index && y in f.index && Find(f, x) != Find(f, y)
    ensures Gone(f, x, y) in Reps(f) && Reps(Link(f, x, y)) == Reps(f) - {Gone(f, x, y)}
    ensures |Reps(Link(f, x, y))| == |Reps(f)| - 1
  {
    LinkFind(f, x, y, x);
    assert Find(f, x).value in Reps(f) && Find(f, y).value in Reps(f);
    LinkRepsBoth(f, x, y);
    assert |Reps(f) - {Gone(f, x, y)}| == |Reps(f)| - 1;
  }

  lemma LinkRepsBoth(f: Forest, x: Id, y: Id)
    requires Consistent(f) && x in f.index && y in f.index && Find(f, x) != Find(f, y)
    ensures Reps(Link(f, x, y)) == Reps(f) - {Gone(f, x, y)}
  {
    forall v | v in Reps(Link(f, x, y)) ensures v in Reps(f) - {Gone(f, x, y)} {
      LinkRepsShrink(f, x, y, v);
    }
    forall v | v in Reps(f) - {Gone(f, x, y)} ensures v in Reps(Link(f, x, y)) {
      LinkRepsKeep(f, x, y, v);
    }
  }

  /**
   * A DisjointSet object. `nodes` holds every GraphNode allocated so far
   * (position = object identity), `index` is the Map from id to node.
   */
  class DisjointSet {
    var nodes: seq<GraphNode>
    var index: map<Id, nat>

    function Model(): Forest
      reads this
    {
      Forest(nodes, index)
    }

    ghost predicate Valid()
      reads this
    {
      Consistent(Model())
    }

    constructor ()
      ensures Valid() && Model() == Empty
    {
      nodes := [];
      index := map[];
    }

    /** `makeSet(id)`: registers a new singleton node for `id`, replacing any node registered before. */
    method MakeSet(id: Id)
      requires Valid() && CanRegister(Model(), id)
      modifies this
      ensures Valid() && Model() == Register(old(Model()), id)
    {
      nodes := nodes + [GraphNode(id, |nodes|, 0, 0)];
      index := index[id := |nodes| - 1];
      assert Model() == Register(old(Model()), id);
    }

    /** `findRoot(nodeId)`: walks parent references up to the self-parented node; changes nothing. */
    method FindRoot(nodeId: Id) returns (r: Option<Id>)
      requires Valid()
      ensures r == Find(Model(), nodeId)
    {
      if nodeId !in index {
        return None;
      }
      assert Ranked(nodes) && index[nodeId] < |nodes|;
      var current: nat := nodes[index[nodeId]].parent;
      while current != nodes[current].parent
        invariant current < |nodes|
        invariant Root(nodes, current) == Root(nodes, index[nodeId])
        decreases MaxRank(nodes) - nodes[current].rank
      {
        assert Climbs(nodes, current);
        current := nodes[current].parent;
      }
      return Some(nodes[current].id);
    }

    /** `union(x, y)`: union by rank of the sets holding `x` and `y`. */
    method Union(x: Id, y: Id)
      requires Valid()
      modifies this
      ensures Valid() && Model() == Link(old(Model()), x, y)
    {
      var rx := FindRoot(x);
      var ry := FindRoot(y);
      // `index.get(undefined)` is undefined
      var xRoot: Option<nat> := if rx.Some? && rx.value in index then Some(index[rx.value]) else None;
      var yRoot: Option<nat> := if ry.Some? && ry.value in index then Some(index[ry.value]) else None;
      if xRoot.None? || yRoot.None? || xRoot == yRoot {
        return;
      }
      var a, b := xRoot.value, yRoot.value;
      if nodes[a].rank < nodes[b].rank {
        nodes := nodes[a := nodes[a].(parent := b)];
      } else if nodes[b].rank < nodes[a].rank {
        nodes := nodes[b := nodes[b].(parent := a)];
      } else {
        nodes := nodes[b := nodes[b].(parent := a)];
        nodes := nodes[a := nodes[a].(rank := nodes[a].rank + 1)];
      }
      assert Model() == Link(old(Model()), x, y);
    }

    /** `size()`: the number of registered ids (not the number of disjoint sets). */
    method Size() returns (n: nat)
      requires Valid()
      ensures n == |index|
    {
      n := |index.Keys|;
    }
  }
}
