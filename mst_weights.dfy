/**
 * The weight side of `calculate` in js/MST.js. The links are sorted heaviest
 * first and the loop pops from the end, so it always examines the lightest
 * link left. Hence the links are selected in non-decreasing weight order, and
 * the endpoints of every candidate link are joined by selected links no
 * heavier than it: the cycle property of a minimum spanning tree.
 */
module MstWeights {
  import opened Sequences
  import opened DisjointSets
  import opened Mst
  import opened MstProperties

  /** The weights never decrease along `es`. */
  predicate WeightsAscending(es: seq<Edge>) {
    forall i, j :: 0 <= i < j < |es| ==> es[i].weight <= es[j].weight
  }

  /** No edge of `sel` is heavier than an edge of `es`. */
  predicate Below(sel: seq<Edge>, es: seq<Edge>) {
    forall i, j :: 0 <= i < |sel| && 0 <= j < |es| ==> sel[i].weight <= es[j].weight
  }

  /** The edges of `es` no heavier than `w`, in order. */
  function Light(es: seq<Edge>, w: real): (r: seq<Edge>)
    ensures forall e :: e in r <==> e in es && e.weight <= w
  {
    if es == [] then []
    else
      var last := es[|es| - 1];
      assert es == es[..|es| - 1] + [last];
      if last.weight <= w then Light(es[..|es| - 1], w) + [last] else Light(es[..|es| - 1], w)
  }

  /**
   * The link the loop pops is no heavier than any link left behind it, so the
   * links selected so far, with or without it, are no heavier than those left.
   */
  lemma BelowPop(sel: seq<Edge>, es: seq<Edge>)
    requires SortedBy(es, DescendingKey) && es != [] && Below(sel, es)
    ensures SortedBy(es[..|es| - 1], DescendingKey)
    ensures forall i :: 0 <= i < |sel| ==> sel[i].weight <= es[|es| - 1].weight
    ensures Below(sel, es[..|es| - 1]) && Below(sel + [es[|es| - 1]], es[..|es| - 1])
  {
    var e, rest := es[|es| - 1], es[..|es| - 1];
    forall j | 0 <= j < |rest| ensures e.weight <= rest[j].weight {
      assert DescendingKey(es[j]) <= DescendingKey(e);
    }
    forall i, j | 0 <= i < |sel| + 1 && 0 <= j < |rest| ensures (sel + [e])[i].weight <= rest[j].weight {
      if i < |sel| {
        assert sel[i].weight <= es[j].weight;
      }
    }
  }

  /** Scanning links sorted heaviest first selects them lightest first. */
  lemma {:induction false} ScanAscending(f: Forest, es: seq<Edge>, sel: seq<Edge>)
    requires Consistent(f) && SortedBy(es, DescendingKey) && WeightsAscending(sel) && Below(sel, es)
    ensures WeightsAscending(Scan(f, es, sel).selected)
    decreases |es|
  {
    if es != [] {
      var e, rest := es[|es| - 1], es[..|es| - 1];
      BelowPop(sel, es);
      if Find(f, e.source) != Find(f, e.target) {
        ScanAscending(Link(f, e.source, e.target), rest, sel + [e]);
      } else {
        ScanAscending(f, rest, sel);
      }
    }
  }

  /**
   * Every scanned link `d` has its endpoints joined by selected links no
   * heavier than `d`: by `d` itself when it is selected, otherwise by the
   * links selected before it, which joined its endpoints into one set.
   */
  lemma {:induction false} ScanLight(f: Forest, es: seq<Edge>, sel: seq<Edge>, d: Edge)
    requires Consistent(f) && Covers(f, es) && Spans(f, sel) && SortedBy(es, DescendingKey) && Below(sel, es)
    requires d in es
    ensures Connected(Light(Scan(f, es, sel).selected, d.weight), d.source, d.target)
    decreases |es|
  {
    var e, rest := es[|es| - 1], es[..|es| - 1];
    assert es == rest + [e];
    BelowPop(sel, es);
    var fin := Scan(f, es, sel).selected;
    if Find(f, e.source) != Find(f, e.target) {
      if d in rest {
        LinkSpans(f, sel, e);
        ScanLight(Link(f, e.source, e.target), rest, sel + [e], d);
      } else {
        assert (sel + [e])[|sel|] == e;
        ConnectedEdge(Light(fin, d.weight), e);
      }
    } else if d in rest {
      ScanLight(f, rest, sel, d);
    } else {
      RejectedLight(f, sel, e, fin);
    }
  }

  /** A rejected link's endpoints are already joined by the links selected before it. */
  lemma RejectedLight(f: Forest, sel: seq<Edge>, e: Edge, fin: seq<Edge>)
    requires Consistent(f) && Spans(f, sel) && e.source in f.index && e.target in f.index
    requires Find(f, e.source) == Find(f, e.target)
    requires sel <= fin && forall i :: 0 <= i < |sel| ==> sel[i].weight <= e.weight
    ensures Connected(Light(fin, e.weight), e.source, e.target)
  {
    assert Same(f, e.source, e.target);
    forall c | c in sel ensures c in Light(fin, e.weight) {
      var i :| 0 <= i < |sel| && sel[i] == c;
      assert fin[i] == c;
    }
    SameEdgesConnected(sel, Light(fin, e.weight), e.source, e.target);
  }

  /** `calculate` selects its links in non-decreasing weight order. */
  lemma AcceptedAscending(ids: seq<Id>, links: seq<Edge>)
    ensures WeightsAscending(Accepted(ids, links))
  {
    var f := Init(ids);
    if |f.index| > 1 {
      ScanAscending(f, SortBy(links, DescendingKey), []);
    }
  }

  /** The endpoints of every candidate link are joined by selected links no heavier than it. */
  lemma AcceptedLight(ids: seq<Id>, links: seq<Edge>, d: Edge)
    requires Covers(Init(ids), links) && d in links
    ensures Connected(Light(Accepted(ids, links), d.weight), d.source, d.target)
  {
    var f := Init(ids);
    SortedConnects(ids, links);
    SortedMembers(links);
    if |f.index| <= 1 {
      AtMostOne(f.index.Keys, d.source, d.target);
      ConnectedSelf(Light(Accepted(ids, links), d.weight), d.source);
    } else {
      InitSpans(ids);
      ScanLight(f, SortBy(links, DescendingKey), [], d);
    }
  }

  /**
   * Over the complete graph, `calculate` selects its links lightest first, and
   * the endpoints of every link of the graph are joined by selected links no
   * heavier than that link (the cycle property).
   */
  lemma CycleProperty(ns: seq<DataNode>, dist: (DataNode, DataNode) -> real)
    ensures WeightsAscending(Accepted(Ids(ns), MakeGraph(ns, dist).links))
    ensures forall d :: d in MakeGraph(ns, dist).links ==>
      Connected(Light(Accepted(Ids(ns), MakeGraph(ns, dist).links), d.weight), d.source, d.target)
  {
    var links := MakeGraph(ns, dist).links;
    GraphConnected(ns, dist);
    AcceptedAscending(Ids(ns), links);
    forall d | d in links
      ensures Connected(Light(Accepted(Ids(ns), links), d.weight), d.source, d.target)
    {
      AcceptedLight(Ids(ns), links, d);
    }
  }
}
