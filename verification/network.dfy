/** `createGraphObject`: the graph of an edge list, reduced to its largest
    component, with degree and community labels on every node. */
module Network {
  import opened Wrappers
  import opened Seqs
  import opened Text
  import opened CoMatrix
  import opened Graph
  import opened Components
  import opened Subgraph
  import opened Distance

  /** A node of the node-link output with its integer attributes. */
  datatype NodeRecord = NodeRecord(id: String, degree: nat, modularity: Option<nat>)

  /** `json_graph.node_link_data(subgraph)`, the float centralities aside. */
  datatype NodeLinkData = NodeLinkData(nodes: seq<NodeRecord>, links: seq<Link>)

  /** The label the loop over `enumerate(communities)` leaves on `x`: the
      last community holding it, if any. */
  function Modularity(communities: seq<set<String>>, x: String): (m: Option<nat>)
    ensures m.Some? ==> m.value < |communities| && x in communities[m.value]
    ensures m.Some? ==> forall j :: m.value < j < |communities| ==> x !in communities[j]
    ensures m.None? ==> forall j :: 0 <= j < |communities| ==> x !in communities[j]
  {
    if |communities| == 0 then None
    else
      var n := |communities| - 1;
      if x in communities[n] then Some(n)
      else
        var m := Modularity(communities[..n], x);
        assert forall j :: 0 <= j < n ==> communities[..n][j] == communities[j];
        m
  }

  /** When the communities are pairwise disjoint, a node in one of them
      gets exactly that community's index. */
  lemma ModularityOfPartition(communities: seq<set<String>>, x: String, i: nat)
    requires forall j, k :: 0 <= j < k < |communities| ==> communities[j] * communities[k] == {}
    requires i < |communities| && x in communities[i]
    ensures Modularity(communities, x) == Some(i)
  {
    var m := Modularity(communities, x);
    assert m.Some? && m.value >= i;
    assert forall k :: i < k < |communities| ==> x !in communities[k] by {
      forall k | i < k < |communities| ensures x !in communities[k] {
        assert communities[i] * communities[k] == {};
        assert x !in communities[i] * communities[k];
      }
    }
  }

  /** The root whose component `max(components, key=len)` returns. */
  function LargestRoot(g: Graph): (r: String)
    requires Valid(g) && |g.nodes| > 0
    ensures r in g.nodes
  {
    ComponentsExist(g);
    var rs := Roots(g, |g.nodes|);
    var r := rs[LargestIndex(ConnectedComponents(g))];
    assert r in rs;
    r
  }

  /** The component `max(components, key=len)` returns: the component of
      one of the graph's nodes. */
  function Largest(g: Graph): (c: set<String>)
    requires Valid(g) && |g.nodes| > 0
    ensures c == Component(g, LargestRoot(g))
  {
    var cs := ConnectedComponents(g);
    ComponentsExist(g);
    cs[LargestIndex(cs)]
  }

  /** No component is larger than the chosen one. */
  lemma LargestIsMaximal(g: Graph, x: String)
    requires Valid(g) && |g.nodes| > 0 && x in g.nodes
    ensures |Component(g, x)| <= |Largest(g)|
  {
    var cs := ConnectedComponents(g);
    var i := ComponentsCover(g, x);
    SameComponent(g, Roots(g, |g.nodes|)[i], x);
    assert |cs[i]| <= |cs[LargestIndex(cs)]|;
  }

  /** The chosen component is the first of its size: every component
      enumerated before it is strictly smaller. */
  lemma LargestIsFirst(g: Graph, j: nat)
    requires Valid(g) && |g.nodes| > 0
    requires j < |ConnectedComponents(g)| && ConnectedComponents(g)[j] == Largest(g)
    ensures forall k :: 0 <= k < j ==> |ConnectedComponents(g)[k]| < |Largest(g)|
  {
    var cs := ConnectedComponents(g);
    var l := LargestIndex(cs);
    var y := Roots(g, |g.nodes|)[l];
    forall k | 0 <= k < |cs| && k != l ensures y !in cs[k] {
      if k < l {
        ComponentsDisjoint(g, k, l);
      } else {
        ComponentsDisjoint(g, l, k);
      }
    }
    assert j == l;
  }

  /** The graph `createGraphObject` builds, before any reduction. */
  function Built(rows: seq<Edge>): (g: Graph)
    ensures Valid(g) && "source" in g.nodes
  {
    CreateGraph(rows)
  }

  /** The `degree` and `modularity` attributes of the nodes `ids`. */
  function Records(links: seq<Link>, ids: seq<String>, communities: seq<set<String>>): (r: seq<NodeRecord>)
    ensures |r| == |ids|
    ensures forall i :: 0 <= i < |ids| ==> r[i].id == ids[i]
    ensures forall i :: 0 <= i < |ids| ==>
      r[i].degree == Degree(links, ids[i]) && r[i].modularity == Modularity(communities, ids[i])
  {
    seq(|ids|, i requires 0 <= i < |ids| => NodeRecord(ids[i], Degree(links, ids[i]), Modularity(communities, ids[i])))
  }

  lemma RecordsCover(links: seq<Link>, ids: seq<String>, communities: seq<set<String>>, c: set<String>)
    requires forall x :: x in c ==> x in ids
    ensures forall x :: x in c ==>
      exists i :: 0 <= i < |Records(links, ids, communities)| && Records(links, ids, communities)[i].id == x
  {
    var r := Records(links, ids, communities);
    forall x | x in c ensures exists i :: 0 <= i < |r| && r[i].id == x {
      var i :| 0 <= i < |ids| && ids[i] == x;
      assert r[i].id == x;
    }
  }

  /** Distinct ids give records with distinct ids. */
  lemma RecordsDistinct(links: seq<Link>, ids: seq<String>, communities: seq<set<String>>)
    requires Distinct(ids)
    ensures var r := Records(links, ids, communities);
      forall i, j :: 0 <= i < j < |r| ==> r[i].id != r[j].id
  {
  }

  /** The node-link data of the largest component of `g`: one record per
      node of the component. */
  function ObjectOf(g: Graph, communities: seq<set<String>>): (data: NodeLinkData)
    requires Valid(g) && |g.nodes| > 0
    ensures forall x :: x in Largest(g) ==> exists i :: 0 <= i < |data.nodes| && data.nodes[i].id == x
    ensures forall i :: 0 <= i < |data.nodes| ==>
      && data.nodes[i].id in Largest(g)
      && data.nodes[i].degree == Degree(g.links, data.nodes[i].id)
      && data.nodes[i].modularity == Modularity(communities, data.nodes[i].id)
    ensures forall i, j :: 0 <= i < j < |data.nodes| ==> data.nodes[i].id != data.nodes[j].id
    ensures SimpleLinks(data.links)
    ensures forall l :: l in data.links ==>
      l.u in Largest(g) && l.v in Largest(g) && HasLink(g.links, l.u, l.v, l.weight)
    ensures forall l :: l in g.links && l.u in Largest(g) && l.v in Largest(g) ==>
      HasLink(data.links, l.u, l.v, l.weight)
  {
    var c := Largest(g);
    var h := Induced(g, c);
    var nodes := Records(g.links, h.nodes, communities);
    RecordsCover(g.links, h.nodes, communities, c);
    RecordsDistinct(g.links, h.nodes, communities);
    InducedHasLinks(g.links, c);
    NodeLinkData(nodes, h.links)
  }

  /** The induced links are, up to orientation, the links inside `c`. */
  lemma InducedHasLinks(links: seq<Link>, c: set<String>)
    ensures forall l :: l in InducedLinks(links, c) ==> l.u in c && l.v in c && HasLink(links, l.u, l.v, l.weight)
    ensures forall l :: l in links && l.u in c && l.v in c ==> HasLink(InducedLinks(links, c), l.u, l.v, l.weight)
  {
    var r := InducedLinks(links, c);
    forall l | l in r ensures HasLink(links, l.u, l.v, l.weight) {
      var k :| 0 <= k < |links| && links[k] == l;
      assert Joins(links[k], l.u, l.v);
    }
    forall l | l in links && l.u in c && l.v in c ensures HasLink(r, l.u, l.v, l.weight) {
      var k :| 0 <= k < |r| && r[k] == l;
      assert Joins(r[k], l.u, l.v);
    }
  }

  /** `x` is the extra node `source` or an endpoint of one of the rows. */
  predicate FromRows(rows: seq<Edge>, x: String)
  {
    x == "source" || exists k :: 0 <= k < |rows| && (rows[k].source == x || rows[k].target == x)
  }

  /** `createGraphObject(df)` with the communities found on the largest
      component given as `communities`: every output node comes from the
      rows or is the extra node, and every output link joins a pair that
      some row names, carrying the weight of the last such row (whichever
      way round the link is written). */
  function CreateGraphObject(rows: seq<Edge>, communities: seq<set<String>>): (data: NodeLinkData)
    ensures forall x :: x in Largest(Built(rows)) ==> exists i :: 0 <= i < |data.nodes| && data.nodes[i].id == x
    ensures forall i :: 0 <= i < |data.nodes| ==> data.nodes[i].id in Largest(Built(rows))
    ensures forall i, j :: 0 <= i < j < |data.nodes| ==> data.nodes[i].id != data.nodes[j].id
    ensures forall i :: 0 <= i < |data.nodes| ==> FromRows(rows, data.nodes[i].id)
    ensures forall l :: l in data.links ==> LastWeight(rows, l.u, l.v) == Some(l.weight)
  {
    OutputFromRows(rows, communities);
    ObjectOf(Built(rows), communities)
  }

  lemma OutputFromRows(rows: seq<Edge>, communities: seq<set<String>>)
    ensures var data := ObjectOf(Built(rows), communities);
      && (forall i :: 0 <= i < |data.nodes| ==> FromRows(rows, data.nodes[i].id))
      && (forall l :: l in data.links ==> LastWeight(rows, l.u, l.v) == Some(l.weight))
  {
    var g := Built(rows);
    var data := ObjectOf(g, communities);
    assert forall y :: y in g.nodes ==> FromRows(rows, y);
    OutputWithinGraph(g, communities);
    forall l | l in data.links ensures LastWeight(rows, l.u, l.v) == Some(l.weight) {
      LinkWeightFromRows(rows, l.u, l.v, l.weight);
    }
  }

  /** A link of the edge list carries the weight of the last row naming its pair. */
  lemma LinkWeightFromRows(rows: seq<Edge>, a: String, b: String, w: int)
    requires HasLink(FromEdgelist(rows).links, a, b, w)
    ensures LastWeight(rows, a, b) == Some(w)
  {
    var f := FromEdgelist(rows);
    var k :| 0 <= k < |f.links| && Joins(f.links[k], a, b) && f.links[k].weight == w;
    LinkIndexUnique(f.links, k, a, b);
    EdgelistWeights(rows, a, b);
  }

  lemma OutputWithinGraph(g: Graph, communities: seq<set<String>>)
    requires Valid(g) && |g.nodes| > 0
    ensures forall i :: 0 <= i < |ObjectOf(g, communities).nodes| ==> ObjectOf(g, communities).nodes[i].id in g.nodes
    ensures forall l :: l in ObjectOf(g, communities).links ==> HasLink(g.links, l.u, l.v, l.weight)
  {
    var x := LargestRoot(g);
  }

  /** Every link of the output joins two output nodes. */
  lemma LinksWithinNodes(g: Graph, communities: seq<set<String>>, l: Link)
    requires Valid(g) && |g.nodes| > 0
    requires l in ObjectOf(g, communities).links
    ensures exists i :: 0 <= i < |ObjectOf(g, communities).nodes| && ObjectOf(g, communities).nodes[i].id == l.u
    ensures exists i :: 0 <= i < |ObjectOf(g, communities).nodes| && ObjectOf(g, communities).nodes[i].id == l.v
  {
  }

  /** A node's `degree` attribute, taken in the whole graph, equals its
      degree in the output component. */
  lemma DegreeInComponent(g: Graph, communities: seq<set<String>>, i: nat)
    requires Valid(g) && |g.nodes| > 0
    requires i < |ObjectOf(g, communities).nodes|
    ensures ObjectOf(g, communities).nodes[i].degree
      == Degree(ObjectOf(g, communities).links, ObjectOf(g, communities).nodes[i].id)
  {
    var x := LargestRoot(g);
    ComponentClosed(g, x);
    InducedDegree(g.links, Largest(g), ObjectOf(g, communities).nodes[i].id);
  }

  /** The degrees of the output nodes sum to twice the number of output links. */
  lemma OutputHandshake(g: Graph, communities: seq<set<String>>)
    requires Valid(g) && |g.nodes| > 0
    ensures var data := ObjectOf(g, communities);
      DegreeSum(seq(|data.nodes|, i requires 0 <= i < |data.nodes| => data.nodes[i].id), data.links)
        == 2 * |data.links|
  {
    var data := ObjectOf(g, communities);
    var h := Induced(g, Largest(g));
    assert seq(|data.nodes|, i requires 0 <= i < |data.nodes| => data.nodes[i].id) == h.nodes;
    Handshake(h.nodes, h.links);
  }

  /** With communities that partition the component, every output node
      carries exactly the index of its own community. */
  lemma CommunityLabels(g: Graph, communities: seq<set<String>>, i: nat, j: nat)
    requires Valid(g) && |g.nodes| > 0
    requires forall a, b :: 0 <= a < b < |communities| ==> communities[a] * communities[b] == {}
    requires i < |ObjectOf(g, communities).nodes|
    requires j < |communities| && ObjectOf(g, communities).nodes[i].id in communities[j]
    ensures ObjectOf(g, communities).nodes[i].modularity == Some(j)
  {
    ModularityOfPartition(communities, ObjectOf(g, communities).nodes[i].id, j);
  }

  /** `nx.diameter(subgraph)`: the largest shortest-path length inside the
      output component (reported on the console), attained by some pair. */
  function ComponentDiameter(rows: seq<Edge>): (d: nat)
    ensures var h := Induced(Built(rows), Largest(Built(rows)));
      && Spans(h, h.nodes, h.nodes)
      && (forall x, y :: x in h.nodes && y in h.nodes ==> Dist(h, x, y) <= d)
      && DistanceAttained(h, d)
  {
    var g := Built(rows);
    var h := Induced(g, Largest(g));
    ComponentSpans(g, h);
    DiameterIsMaxDistance(h, h.nodes, h.nodes);
    DiameterAttained(h);
    Diameter(h, h.nodes, h.nodes)
  }

  /** Some pair of nodes of the connected graph `h` is exactly `d` apart. */
  predicate DistanceAttained(h: Graph, d: nat)
    requires Spans(h, h.nodes, h.nodes)
  {
    exists x, y :: x in h.nodes && y in h.nodes && Dist(h, x, y) == d
  }

  lemma DiameterAttained(h: Graph)
    requires Spans(h, h.nodes, h.nodes) && |h.nodes| > 0
    ensures DistanceAttained(h, Diameter(h, h.nodes, h.nodes))
  {
    DiameterIsMaxDistance(h, h.nodes, h.nodes);
  }

  /** The largest component is non-empty and connected, so every pair of
      its nodes has a distance. */
  lemma ComponentSpans(g: Graph, h: Graph)
    requires Valid(g) && |g.nodes| > 0 && h == Induced(g, Largest(g))
    ensures |h.nodes| > 0 && Spans(h, h.nodes, h.nodes)
  {
    var r := LargestRoot(g);
    assert r in h.nodes;
    forall x, y | x in h.nodes && y in h.nodes ensures y in Component(h, x) {
      InducedConnected(g, r, x, y);
      ComponentIsReachable(h, x, y);
    }
  }

  lemma {:induction false} DegreeUntouched(links: seq<Link>, x: String)
    requires forall i :: 0 <= i < |links| ==> links[i].u != x && links[i].v != x
    ensures Degree(links, x) == 0
  {
    if |links| > 0 {
      DegreeUntouched(links[..|links| - 1], x);
    }
  }

  lemma {:induction false} NeighboursUntouched(links: seq<Link>, x: String)
    requires forall i :: 0 <= i < |links| ==> links[i].u != x && links[i].v != x
    ensures Neighbours(links, {x}) == {}
  {
    if |links| > 0 {
      NeighboursUntouched(links[..|links| - 1], x);
    }
  }

  /** The extra node `source` that `add_nodes_from` takes from the column
      label is isolated unless some row names a person `source`: it has
      degree 0 and forms a component of its own. */
  lemma SourceNodeIsolated(rows: seq<Edge>)
    requires forall k :: 0 <= k < |rows| ==> rows[k].source != "source" && rows[k].target != "source"
    ensures "source" in Built(rows).nodes
    ensures Degree(Built(rows).links, "source") == 0
    ensures Component(Built(rows), "source") == {"source"}
  {
    var g := Built(rows);
    var f := FromEdgelist(rows);
    EdgelistNodeOrder(rows);
    EndpointsMembers(rows, "source");
    assert "source" !in f.nodes;
    assert forall i :: 0 <= i < |g.links| ==> g.links[i].u != "source" && g.links[i].v != "source" by {
      forall i | 0 <= i < |g.links| ensures g.links[i].u != "source" && g.links[i].v != "source" {
        assert g.links[i] == f.links[i];
      }
    }
    DegreeUntouched(g.links, "source");
    NeighboursUntouched(g.links, "source");
    assert Expand(g.links, {"source"}) == {"source"};
  }
}
