/**
 * What `makeGraph` and `calculate` of js/MST.js guarantee: the graph is
 * complete and symmetric, and the selected links form a spanning tree of the
 * data points (one link fewer than distinct ids, no cycle, every pair joined).
 */
module MstProperties {
  import opened Wrappers
  import opened Sequences
  import opened DisjointSets
  import opened Mst

  // ---------------------------------------------------------------- makeGraph

  /** No data point occurs twice. */
  predicate Distinct(ns: seq<DataNode>) {
    forall a, b :: 0 <= a < b < |ns| ==> ns[a] != ns[b]
  }

  lemma {:induction false} DistinctOnce(ns: seq<DataNode>, i: nat)
    requires Distinct(ns) && i < |ns|
    ensures multiset(ns)[ns[i]] == 1
  {
    assert ns == [ns[0]] + ns[1..];
    if i == 0 {
      assert forall b :: 0 <= b < |ns[1..]| ==> ns[1..][b] == ns[b + 1] != ns[0];
      assert ns[0] !in ns[1..];
    } else {
      DistinctOnce(ns[1..], i - 1);
      assert ns[0] != ns[i];
    }
  }

  lemma {:induction false} AllEdgesCount(sources: seq<DataNode>, ns: seq<DataNode>, dist: (DataNode, DataNode) -> real)
    requires forall i :: 0 <= i < |sources| ==> multiset(ns)[sources[i]] == 1
    ensures |AllEdges(sources, ns, dist)| == |sources| * (|ns| - 1)
  {
    if sources != [] {
      AllEdgesCount(sources[1..], ns, dist);
      assert |sources| * (|ns| - 1) == (|sources| - 1) * (|ns| - 1) + (|ns| - 1);
    }
  }

  /** Over n distinct points, `makeGraph` yields n * (n - 1) directed links. */
  lemma MakeGraphCount(ns: seq<DataNode>, dist: (DataNode, DataNode) -> real)
    requires Distinct(ns)
    ensures |MakeGraph(ns, dist).links| == |ns| * (|ns| - 1)
  {
    forall i | 0 <= i < |ns| ensures multiset(ns)[ns[i]] == 1 {
      DistinctOnce(ns, i);
    }
    AllEdgesCount(ns, ns, dist);
  }

  lemma {:induction false} AllEdgesMembers(sources: seq<DataNode>, ns: seq<DataNode>, dist: (DataNode, DataNode) -> real, e: Edge)
    ensures e in AllEdges(sources, ns, dist) <==>
      exists i, j :: 0 <= i < |sources| && 0 <= j < |ns| && ns[j] != sources[i] &&
        e == Edge(dist(sources[i], ns[j]), sources[i].id, ns[j].id)
  {
    if sources != [] {
      AllEdgesMembers(sources[1..], ns, dist, e);
      if e in EdgesFrom(sources[0], ns, dist) {
        var t :| t in ns && t != sources[0] && e == Edge(dist(sources[0], t), sources[0].id, t.id);
        var j :| 0 <= j < |ns| && ns[j] == t;
        assert ns[j] != sources[0] && e == Edge(dist(sources[0], ns[j]), sources[0].id, ns[j].id);
      }
      if exists i, j :: 0 <= i < |sources| && 0 <= j < |ns| && ns[j] != sources[i] && e == Edge(dist(sources[i], ns[j]), sources[i].id, ns[j].id) {
        var i, j :| 0 <= i < |sources| && 0 <= j < |ns| && ns[j] != sources[i] &&
          e == Edge(dist(sources[i], ns[j]), sources[i].id, ns[j].id);
        if i == 0 {
          assert ns[j] in ns;
        } else {
          assert sources[1..][i - 1] == sources[i];
        }
      }
    }
  }

  /** A link of `makeGraph` runs from one point to a different point, weighted by their distance; every such pair has one. */
  lemma MakeGraphLinks(ns: seq<DataNode>, dist: (DataNode, DataNode) -> real, e: Edge)
    ensures e in MakeGraph(ns, dist).links <==>
      exists i, j :: 0 <= i < |ns| && 0 <= j < |ns| && ns[i] != ns[j] &&
        e == Edge(dist(ns[i], ns[j]), ns[i].id, ns[j].id)
  {
    AllEdgesMembers(ns, ns, dist, e);
  }

  /** With a distance, every link has a non-negative weight and a reverse twin of the same weight. */
  lemma MakeGraphSymmetric(ns: seq<DataNode>, dist: (DataNode, DataNode) -> real)
    requires IsDistance(dist, ns)
    ensures forall e :: e in MakeGraph(ns, dist).links ==>
      e.weight >= 0.0 && Edge(e.weight, e.target, e.source) in MakeGraph(ns, dist).links
  {
    forall e | e in MakeGraph(ns, dist).links
      ensures e.weight >= 0.0 && Edge(e.weight, e.target, e.source) in MakeGraph(ns, dist).links
    {
      MakeGraphLinks(ns, dist, e);
      var i, j :| 0 <= i < |ns| && 0 <= j < |ns| && ns[i] != ns[j] &&
        e == Edge(dist(ns[i], ns[j]), ns[i].id, ns[j].id);
      MakeGraphLinks(ns, dist, Edge(e.weight, e.target, e.source));
      assert Edge(e.weight, e.target, e.source) == Edge(dist(ns[j], ns[i]), ns[j].id, ns[i].id);
    }
  }

  // ------------------------------------------------------------ walks

  /** Some edge of `es` joins `a` and `b`, in either direction. */
  ghost predicate Adjacent(es: seq<Edge>, a: Id, b: Id) {
    exists e :: e in es && ((e.source == a && e.target == b) || (e.source == b && e.target == a))
  }

  ghost predicate IsWalk(es: seq<Edge>, p: seq<Id>) {
    |p| > 0 && forall i :: 0 <= i < |p| - 1 ==> Adjacent(es, p[i], p[i + 1])
  }

  /** `a` reaches `b` over the undirected edges of `es`. */
  ghost predicate Connected(es: seq<Edge>, a: Id, b: Id) {
    exists p :: IsWalk(es, p) && p[0] == a && p[|p| - 1] == b
  }

  /** No edge joins two ids that the edges before it already connect: the edges form a forest. */
  ghost predicate Acyclic(es: seq<Edge>) {
    forall k :: 0 <= k < |es| ==> !Connected(es[..k], es[k].source, es[k].target)
  }

  lemma ConnectedSelf(es: seq<Edge>, a: Id)
    ensures Connected(es, a, a)
  {
    assert IsWalk(es, [a]);
  }

  lemma ConnectedEdge(es: seq<Edge>, e: Edge)
    requires e in es
    ensures Connected(es, e.source, e.target) && Connected(es, e.target, e.source)
  {
    assert Adjacent(es, e.source, e.target);
    assert IsWalk(es, [e.source, e.target]);
    assert IsWalk(es, [e.target, e.source]);
  }

  lemma ConnectedJoin(es: seq<Edge>, a: Id, b: Id, c: Id)
    requires Connected(es, a, b) && Connected(es, b, c)
    ensures Connected(es, a, c)
  {
    var p :| IsWalk(es, p) && p[0] == a && p[|p| - 1] == b;
    var q :| IsWalk(es, q) && q[0] == b && q[|q| - 1] == c;
    var r := p + q[1..];
    forall i | 0 <= i < |r| - 1 ensures Adjacent(es, r[i], r[i + 1]) {
      if i < |p| - 1 {
        assert r[i] == p[i] && r[i + 1] == p[i + 1];
      } else {
        var k := i - (|p| - 1);
        assert r[i] == q[k] && r[i + 1] == q[k + 1];
        assert Adjacent(es, q[k], q[k + 1]);
      }
    }
    assert IsWalk(es, r) && r[0] == a && r[|r| - 1] == c;
  }

  // -------------------------------------------------- the DisjointSet and the walks

  /** Every endpoint of every edge of `es` has had `makeSet`. */
  predicate Covers(f: Forest, es: seq<Edge>) {
    forall e :: e in es ==> e.source in f.index && e.target in f.index
  }

  /** Every edge of `es` joins two members of one set of `f`. */
  predicate Joined(f: Forest, es: seq<Edge>)
    requires Consistent(f)
  {
    forall e :: e in es ==> Same(f, e.source, e.target)
  }

  /** Any two members of one set of `f` are connected by `es`. */
  ghost predicate Spans(f: Forest, es: seq<Edge>)
    requires Consistent(f)
  {
    forall a, b :: Same(f, a, b) ==> Connected(es, a, b)
  }

  lemma {:induction false} WalkSame(f: Forest, es: seq<Edge>, p: seq<Id>)
    requires Consistent(f) && Joined(f, es) && IsWalk(es, p) && p[0] in f.index
    ensures Same(f, p[0], p[|p| - 1])
    decreases |p|
  {
    if |p| > 1 {
      var q := p[..|p| - 1];
      forall i | 0 <= i < |q| - 1 ensures Adjacent(es, q[i], q[i + 1]) {
        assert q[i] == p[i] && q[i + 1] == p[i + 1];
      }
      WalkSame(f, es, q);
      assert Adjacent(es, p[|p| - 2], p[|p| - 1]);
      var e :| e in es && ((e.source == p[|p| - 2] && e.target == p[|p| - 1]) || (e.source == p[|p| - 1] && e.target == p[|p| - 2]));
      assert Same(f, e.source, e.target);
    }
  }

  /** Edges that stay within sets only connect members of one set. */
  lemma ConnectedSame(f: Forest, es: seq<Edge>, a: Id, b: Id)
    requires Consistent(f) && Joined(f, es) && a in f.index && Connected(es, a, b)
    ensures Same(f, a, b)
  {
    var p :| IsWalk(es, p) && p[0] == a && p[|p| - 1] == b;
    WalkSame(f, es, p);
  }

  /** `union` never splits a set. */
  lemma LinkKeepsSame(f: Forest, x: Id, y: Id, a: Id, b: Id)
    requires Consistent(f) && Same(f, a, b)
    ensures Same(Link(f, x, y), a, b)
  {
    if x in f.index && y in f.index {
      LinkFind(f, x, y, a);
      LinkFind(f, x, y, b);
    }
  }

  /** After `union(x, y)` the two endpoints and all earlier joined edges stay joined. */
  lemma LinkJoined(f: Forest, sel: seq<Edge>, e: Edge)
    requires Consistent(f) && Joined(f, sel) && e.source in f.index && e.target in f.index
    ensures Joined(Link(f, e.source, e.target), sel + [e])
  {
    var g := Link(f, e.source, e.target);
    LinkFind(f, e.source, e.target, e.source);
    forall d | d in sel + [e] ensures Same(g, d.source, d.target) {
      if d in sel {
        LinkKeepsSame(f, e.source, e.target, d.source, d.target);
      }
    }
  }

  lemma LinkSpans(f: Forest, sel: seq<Edge>, e: Edge)
    requires Consistent(f) && Spans(f, sel) && e.source in f.index && e.target in f.index
    requires Find(f, e.source) != Find(f, e.target)
    ensures Spans(Link(f, e.source, e.target), sel + [e])
  {
    var u, v := e.source, e.target;
    var g := Link(f, u, v);
    var sel' := sel + [e];
    LinkFind(f, u, v, u);
    LinkFind(f, u, v, v);
    assert forall d :: d in sel ==> d in sel';
    forall a, b | Same(g, a, b) ensures Connected(sel', a, b) {
      LinkFind(f, u, v, a);
      LinkFind(f, u, v, b);
      ConnectedEdge(sel', e);
      if Same(f, a, b) {
        SameEdgesConnected(sel, sel', a, b);
      } else if Find(f, a) == Find(f, u) {
        assert Same(f, a, u) && Same(f, v, b);
        SameEdgesConnected(sel, sel', a, u);
        SameEdgesConnected(sel, sel', v, b);
        ConnectedJoin(sel', a, u, v);
        ConnectedJoin(sel', a, v, b);
      } else {
        assert Same(f, a, v) && Same(f, u, b);
        SameEdgesConnected(sel, sel', a, v);
        SameEdgesConnected(sel, sel', u, b);
        ConnectedJoin(sel', a, v, u);
        ConnectedJoin(sel', a, u, b);
      }
    }
  }

  // ------------------------------------------------------------ the scan

  /** A set only ever grows while the loop runs. */
  lemma {:induction false} ScanKeepsSame(f: Forest, es: seq<Edge>, sel: seq<Edge>, a: Id, b: Id)
    requires Consistent(f) && Same(f, a, b)
    ensures Same(Scan(f, es, sel).forest, a, b)
    decreases |es|
  {
    if es != [] {
      var e := es[|es| - 1];
      if Find(f, e.source) != Find(f, e.target) {
        LinkKeepsSame(f, e.source, e.target, a, b);
        ScanKeepsSame(Link(f, e.source, e.target), es[..|es| - 1], sel + [e], a, b);
      } else {
        ScanKeepsSame(f, es[..|es| - 1], sel, a, b);
      }
    }
  }

  /** At the end of the loop every scanned edge, selected or not, lies within one set. */
  lemma {:induction false} ScanJoins(f: Forest, es: seq<Edge>, sel: seq<Edge>)
    requires Consistent(f) && Covers(f, es) && Joined(f, sel)
    ensures Joined(Scan(f, es, sel).forest, Scan(f, es, sel).selected)
    ensures Joined(Scan(f, es, sel).forest, es)
    decreases |es|
  {
    if es != [] {
      var e, rest := es[|es| - 1], es[..|es| - 1];
      assert es == rest + [e];
      var r := Scan(f, es, sel);
      if Find(f, e.source) != Find(f, e.target) {
        LinkJoined(f, sel, e);
        ScanJoins(Link(f, e.source, e.target), rest, sel + [e]);
        assert e in r.selected by { assert (sel + [e])[|sel|] == e; }
      } else {
        ScanJoins(f, rest, sel);
        ScanKeepsSame(f, rest, sel, e.source, e.target);
      }
    }
  }

  /** Each selected edge merges two sets: selected edges plus sets stay constant. */
  lemma {:induction false} ScanCount(f: Forest, es: seq<Edge>, sel: seq<Edge>)
    requires Consistent(f) && Covers(f, es)
    ensures |Scan(f, es, sel).selected| + |Reps(Scan(f, es, sel).forest)| == |sel| + |Reps(f)|
    decreases |es|
  {
    if es != [] {
      var e, rest := es[|es| - 1], es[..|es| - 1];
      assert es == rest + [e];
      if Find(f, e.source) != Find(f, e.target) {
        LinkReps(f, e.source, e.target);
        ScanCount(Link(f, e.source, e.target), rest, sel + [e]);
      } else {
        ScanCount(f, rest, sel);
      }
    }
  }

  /** No selected edge closes a cycle. */
  lemma {:induction false} ScanAcyclic(f: Forest, es: seq<Edge>, sel: seq<Edge>)
    requires Consistent(f) && Covers(f, es) && Joined(f, sel) && Acyclic(sel)
    ensures Acyclic(Scan(f, es, sel).selected)
    decreases |es|
  {
    if es != [] {
      var e, rest := es[|es| - 1], es[..|es| - 1];
      assert es == rest + [e];
      if Find(f, e.source) != Find(f, e.target) {
        var sel' := sel + [e];
        if Connected(sel, e.source, e.target) {
          ConnectedSame(f, sel, e.source, e.target);
        }
        forall k | 0 <= k < |sel'| ensures !Connected(sel'[..k], sel'[k].source, sel'[k].target) {
          if k < |sel| {
            assert sel'[..k] == sel[..k] && sel'[k] == sel[k];
          } else {
            assert sel'[..k] == sel;
          }
        }
        LinkJoined(f, sel, e);
        ScanAcyclic(Link(f, e.source, e.target), rest, sel');
      } else {
        ScanAcyclic(f, rest, sel);
      }
    }
  }

  /** Members of one set are connected by the selected edges. */
  lemma {:induction false} ScanSpans(f: Forest, es: seq<Edge>, sel: seq<Edge>)
    requires Consistent(f) && Covers(f, es) && Spans(f, sel)
    ensures Spans(Scan(f, es, sel).forest, Scan(f, es, sel).selected)
    decreases |es|
  {
    if es != [] {
      var e, rest := es[|es| - 1], es[..|es| - 1];
      assert es == rest + [e];
      if Find(f, e.source) != Find(f, e.target) {
        LinkSpans(f, sel, e);
        ScanSpans(Link(f, e.source, e.target), rest, sel + [e]);
      } else {
        ScanSpans(f, rest, sel);
      }
    }
  }

  /**
   * Once at most one set is left, the loop rejects every remaining edge:
   * scanning them returns the state it started from, selection unchanged.
   */
  lemma {:induction false} OneSetRejectsAll(f: Forest, es: seq<Edge>, sel: seq<Edge>)
    requires Consistent(f) && Covers(f, es) && |Reps(f)| <= 1
    ensures Scan(f, es, sel) == Run(f, sel)
    decreases |es|
  {
    if es != [] {
      var e, rest := es[|es| - 1], es[..|es| - 1];
      assert es == rest + [e];
      var s, t := Find(f, e.source).value, Find(f, e.target).value;
      assert s in Reps(f) && t in Reps(f);
      AtMostOne(Reps(f), s, t);
      OneSetRejectsAll(f, rest, sel);
    }
  }

  /** Two members of a set with at most one element are equal. */
  lemma AtMostOne(a: set<Id>, s: Id, t: Id)
    requires s in a && t in a && |a| <= 1
    ensures s == t
  {
    assert |a - {s}| == |a| - 1;
    assert t !in a - {s};
  }

  // ------------------------------------------------------------ the first makeSet loop

  /** Right after the `makeSet` loop, every id is its own set. */
  lemma InitFind(ids: seq<Id>, k: Id)
    requires k in Init(ids).index
    ensures Find(Init(ids), k) == Some(k)
  {
    var f := Init(ids);
    var v := Find(f, k).value;
    assert f.index[v] == f.index[k];
  }

  lemma InitReps(ids: seq<Id>)
    ensures Reps(Init(ids)) == Init(ids).index.Keys
  {
    var f := Init(ids);
    InitRepsCover(ids);
    assert Reps(f) <= f.index.Keys;
  }

  lemma InitRepsCover(ids: seq<Id>)
    ensures forall k :: k in Init(ids).index ==> k in Reps(Init(ids))
  {
    var f := Init(ids);
    forall k | k in f.index ensures k in Reps(f) {
      InitFind(ids, k);
    }
  }

  lemma InitSpans(ids: seq<Id>)
    ensures Spans(Init(ids), [])
  {
    forall a, b | Same(Init(ids), a, b) ensures Connected([], a, b) {
      InitFind(ids, a);
      InitFind(ids, b);
      ConnectedSelf([], a);
    }
  }

  // ------------------------------------------------------------ calculate

  /** A walk from a registered id over covered edges ends at a registered id. */
  lemma {:induction false} ConnectedCovered(f: Forest, es: seq<Edge>, a: Id, b: Id)
    requires Covers(f, es) && a in f.index && Connected(es, a, b)
    ensures b in f.index
  {
    var p :| IsWalk(es, p) && p[0] == a && p[|p| - 1] == b;
    if |p| > 1 {
      assert Adjacent(es, p[|p| - 2], p[|p| - 1]);
    }
  }

  /** Sorting the candidate edges keeps the same edges. */
  lemma SortedMembers(links: seq<Edge>)
    ensures forall e :: e in SortBy(links, DescendingKey) <==> e in links
  {
    var es := SortBy(links, DescendingKey);
    forall e ensures e in es <==> e in links {
      assert e in es <==> e in multiset(es);
    }
  }

  /**
   * The links `calculate` selects form a forest of input links that connects
   * every two ids the input links connect.
   */
  lemma AcceptedForest(ids: seq<Id>, links: seq<Edge>)
    requires Covers(Init(ids), links)
    ensures Acyclic(Accepted(ids, links))
    ensures forall e :: e in Accepted(ids, links) ==> e in links
    ensures forall a, b :: a in Init(ids).index && Connected(links, a, b) ==> Connected(Accepted(ids, links), a, b)
  {
    var f := Init(ids);
    var es := SortBy(links, DescendingKey);
    SortedMembers(links);
    if |f.index| <= 1 {
      forall a, b | a in f.index && Connected(links, a, b) ensures Connected(Accepted(ids, links), a, b) {
        ConnectedCovered(f, links, a, b);
        AtMostOne(f.index.Keys, a, b);
        ConnectedSelf([], a);
      }
    } else {
      ScanAcyclic(f, es, []);
      ScanJoins(f, es, []);
      InitSpans(ids);
      ScanSpans(f, es, []);
      var r := Scan(f, es, []);
      assert Joined(r.forest, links);
      forall a, b | a in f.index && Connected(links, a, b) ensures Connected(r.selected, a, b) {
        ConnectedSame(r.forest, links, a, b);
      }
    }
  }

  /** When the scanned edges connect every two elements, the loop ends with a single set. */
  lemma ScanOneSet(f: Forest, es: seq<Edge>)
    requires Consistent(f) && Covers(f, es) && |f.index| > 0
    requires forall a, b :: a in f.index && b in f.index ==> Connected(es, a, b)
    ensures |Reps(Scan(f, es, []).forest)| == 1
  {
    var r := Scan(f, es, []);
    ScanJoins(f, es, []);
    if forall k :: k !in f.index {
      assert false;
    }
    var k0 :| k0 in f.index;
    var root := Find(r.forest, k0).value;
    forall v | v in Reps(r.forest) ensures v == root {
      var k :| k in r.forest.index && Find(r.forest, k).value == v;
      ConnectedSame(r.forest, es, k0, k);
    }
    assert Reps(r.forest) == {root};
  }

  /** When the input links connect all ids, `calculate` selects one link fewer than there are ids. */
  lemma AcceptedCount(ids: seq<Id>, links: seq<Edge>)
    requires Covers(Init(ids), links)
    requires forall a, b :: a in Init(ids).index && b in Init(ids).index ==> Connected(links, a, b)
    ensures |Accepted(ids, links)| == if |Init(ids).index| <= 1 then 0 else |Init(ids).index| - 1
  {
    var f := Init(ids);
    if |f.index| > 1 {
      SortedConnects(ids, links);
      assert forall a, b :: a in f.index && b in f.index ==> Connected(SortBy(links, DescendingKey), a, b);
      InitReps(ids);
      ScanTree(f, SortBy(links, DescendingKey));
    }
  }

  /** Scanning edges that connect a forest of singletons selects one edge fewer than there are ids. */
  lemma ScanTree(f: Forest, es: seq<Edge>)
    requires Consistent(f) && Covers(f, es) && |f.index| > 0 && Reps(f) == f.index.Keys
    requires forall a, b :: a in f.index && b in f.index ==> Connected(es, a, b)
    ensures |Scan(f, es, []).selected| == |f.index| - 1
  {
    ScanCount(f, es, []);
    ScanOneSet(f, es);
    assert |Reps(f)| == |f.index|;
  }

  /** The sorted links cover the same ids and connect exactly the same pairs as the links. */
  lemma SortedConnects(ids: seq<Id>, links: seq<Edge>)
    requires Covers(Init(ids), links)
    ensures Covers(Init(ids), SortBy(links, DescendingKey))
    ensures forall a, b :: Connected(links, a, b) <==> Connected(SortBy(links, DescendingKey), a, b)
  {
    var es := SortBy(links, DescendingKey);
    SortedMembers(links);
    forall a, b ensures Connected(links, a, b) <==> Connected(es, a, b) {
      if Connected(links, a, b) {
        SameEdgesConnected(links, es, a, b);
      }
      if Connected(es, a, b) {
        SameEdgesConnected(es, links, a, b);
      }
    }
  }

  /** Connectivity depends only on which edges there are. */
  lemma SameEdgesConnected(es: seq<Edge>, es': seq<Edge>, a: Id, b: Id)
    requires forall e :: e in es ==> e in es'
    requires Connected(es, a, b)
    ensures Connected(es', a, b)
  {
    var p :| IsWalk(es, p) && p[0] == a && p[|p| - 1] == b;
    forall i | 0 <= i < |p| - 1 ensures Adjacent(es', p[i], p[i + 1]) {
      assert Adjacent(es, p[i], p[i + 1]);
    }
    assert IsWalk(es', p);
  }

  /** The distinct ids of the data points. */
  function IdSet(ns: seq<DataNode>): (ids: set<Id>)
    ensures forall i :: 0 <= i < |ns| ==> ns[i].id in ids
    ensures forall k :: k in ids ==> exists i :: 0 <= i < |ns| && ns[i].id == k
  {
    set i | 0 <= i < |ns| :: ns[i].id
  }

  /** The complete graph mentions exactly the ids of the data points, and connects every two of them. */
  lemma GraphConnected(ns: seq<DataNode>, dist: (DataNode, DataNode) -> real)
    ensures Init(Ids(ns)).index.Keys == IdSet(ns)
    ensures Covers(Init(Ids(ns)), MakeGraph(ns, dist).links)
    ensures forall a, b :: a in IdSet(ns) && b in IdSet(ns) ==> Connected(MakeGraph(ns, dist).links, a, b)
  {
    var f := Init(Ids(ns));
    var links := MakeGraph(ns, dist).links;
    forall e | e in links ensures e.source in f.index && e.target in f.index {
      MakeGraphLinks(ns, dist, e);
    }
    forall a, b | a in IdSet(ns) && b in IdSet(ns) ensures Connected(links, a, b) {
      var i :| 0 <= i < |ns| && ns[i].id == a;
      var j :| 0 <= j < |ns| && ns[j].id == b;
      if ns[i] == ns[j] {
        ConnectedSelf(links, a);
      } else {
        var e := Edge(dist(ns[i], ns[j]), a, b);
        MakeGraphLinks(ns, dist, e);
        ConnectedEdge(links, e);
      }
    }
  }

  /**
   * `calculate` returns a spanning tree of the data points: one link fewer
   * than there are distinct ids, all of them links of the complete graph, no
   * cycle, and every two points connected.
   */
  lemma SpanningTree(ns: seq<DataNode>, dist: (DataNode, DataNode) -> real)
    ensures var sel := Accepted(Ids(ns), MakeGraph(ns, dist).links);
      && |sel| == (if |IdSet(ns)| <= 1 then 0 else |IdSet(ns)| - 1)
      && Acyclic(sel)
      && (forall e :: e in sel ==> e in MakeGraph(ns, dist).links)
      && (forall a, b :: a in IdSet(ns) && b in IdSet(ns) ==> Connected(sel, a, b))
  {
    GraphConnected(ns, dist);
    AcceptedForest(Ids(ns), MakeGraph(ns, dist).links);
    AcceptedCount(Ids(ns), MakeGraph(ns, dist).links);
  }
}
