/** The undirected weighted graph `createGraphObject` builds from an edge
    list: one link per unordered pair of endpoints, nodes in order of first
    appearance, plus the extra node `source`. */
module Graph {
  import opened Text
  import opened Seqs
  import opened Wrappers
  import opened CoMatrix

  /** An undirected link; `u` and `v` are kept in the order first seen. */
  datatype Link = Link(u: String, v: String, weight: int)

  datatype Graph = Graph(nodes: seq<String>, links: seq<Link>)

  /** The link connects `a` and `b`, in either direction. */
  predicate Joins(l: Link, a: String, b: String)
  {
    (l.u == a && l.v == b) || (l.u == b && l.v == a)
  }

  /** Some link joins `a` and `b`, in either direction, with weight `w`. */
  predicate HasLink(links: seq<Link>, a: String, b: String, w: int)
  {
    exists k :: 0 <= k < |links| && Joins(links[k], a, b) && links[k].weight == w
  }

  /** The row of the edge list names the pair `a`, `b`, in either direction. */
  predicate Names(e: Edge, a: String, b: String)
  {
    (e.source == a && e.target == b) || (e.source == b && e.target == a)
  }

  /** No two links share a pair of endpoints. */
  predicate SimpleLinks(links: seq<Link>)
  {
    forall i, j :: 0 <= i < j < |links| ==> !Joins(links[i], links[j].u, links[j].v)
  }

  /** Nodes are distinct, every endpoint is a node, no pair is linked twice. */
  predicate Valid(g: Graph)
  {
    && Distinct(g.nodes)
    && (forall i :: 0 <= i < |g.links| ==> g.links[i].u in g.nodes && g.links[i].v in g.nodes)
    && SimpleLinks(g.links)
  }

  /** `G.add_node(x)`: appended unless already present. */
  function AddNode(nodes: seq<String>, x: String): (r: seq<String>)
    ensures Distinct(nodes) ==> Distinct(r)
    ensures forall y :: y in r <==> y in nodes || y == x
  {
    if x in nodes then nodes else nodes + [x]
  }

  /** Position of the link joining `a` and `b`, or `|links|` when there is none. */
  function LinkIndex(links: seq<Link>, a: String, b: String): (i: nat)
    ensures i <= |links|
    ensures i < |links| ==> Joins(links[i], a, b)
    ensures i == |links| ==> forall k :: 0 <= k < |links| ==> !Joins(links[k], a, b)
  {
    if |links| == 0 then 0
    else if Joins(links[0], a, b) then 0
    else 1 + LinkIndex(links[1..], a, b)
  }

  /** Among links with distinct pairs, the one joining `a` and `b` is found. */
  lemma LinkIndexUnique(links: seq<Link>, i: nat, a: String, b: String)
    requires SimpleLinks(links)
    requires i < |links| && Joins(links[i], a, b)
    ensures LinkIndex(links, a, b) == i
  {
    var j := LinkIndex(links, a, b);
    if j != i {
      assert Joins(links[j], a, b);
      if j < i {
        assert Joins(links[j], links[i].u, links[i].v);
      } else {
        assert Joins(links[i], links[j].u, links[j].v);
      }
    }
  }

  /** Weight of the link between `a` and `b`, if any. */
  function LinkWeight(g: Graph, a: String, b: String): Option<int>
  {
    var i := LinkIndex(g.links, a, b);
    if i < |g.links| then Some(g.links[i].weight) else None
  }

  /** The two link lists have the same endpoints, position by position. */
  predicate SameEnds(a: seq<Link>, b: seq<Link>)
  {
    |a| == |b| && forall k :: 0 <= k < |a| ==> a[k].u == b[k].u && a[k].v == b[k].v
  }

  lemma SameEndsSimple(a: seq<Link>, b: seq<Link>)
    requires SameEnds(a, b) && SimpleLinks(a)
    ensures SimpleLinks(b)
  {
    forall i, j | 0 <= i < j < |b| ensures !Joins(b[i], b[j].u, b[j].v) {
      assert !Joins(a[i], a[j].u, a[j].v);
    }
  }

  lemma AppendSimple(links: seq<Link>, l: Link)
    requires SimpleLinks(links)
    requires forall k :: 0 <= k < |links| ==> !Joins(links[k], l.u, l.v)
    ensures SimpleLinks(links + [l])
  {
    var r := links + [l];
    forall i, j | 0 <= i < j < |r| ensures !Joins(r[i], r[j].u, r[j].v) {
      if j < |links| {
        assert r[i] == links[i] && r[j] == links[j];
      } else {
        assert r[i] == links[i];
      }
    }
  }

  /** `G.add_edge(source, target, weight=w)`: a new pair is appended, an
      existing one keeps its place and endpoints and takes the new weight. */
  function AddEdge(g: Graph, e: Edge): (r: Graph)
    requires Valid(g)
    ensures Valid(r)
    ensures forall x :: x in r.nodes <==> x in g.nodes || x == e.source || x == e.target
  {
    var nodes := AddNode(AddNode(g.nodes, e.source), e.target);
    var i := LinkIndex(g.links, e.source, e.target);
    if i < |g.links| then
      var links := g.links[i := Link(g.links[i].u, g.links[i].v, e.weight)];
      assert SameEnds(g.links, links);
      SameEndsSimple(g.links, links);
      Graph(nodes, links)
    else
      var links := g.links + [Link(e.source, e.target, e.weight)];
      AppendSimple(g.links, Link(e.source, e.target, e.weight));
      assert forall k :: 0 <= k < |g.links| ==> links[k] == g.links[k];
      Graph(nodes, links)
  }

  /** Adding a row adds its endpoints as nodes, source first. */
  lemma AddEdgeNodes(g: Graph, e: Edge)
    requires Valid(g)
    ensures AddEdge(g, e).nodes == AddNode(AddNode(g.nodes, e.source), e.target)
  {
  }

  /** `nx.from_pandas_edgelist(df, 'source', 'target', 'weight')`: the rows
      added one after the other. */
  function FromEdgelist(rows: seq<Edge>): (g: Graph)
    ensures Valid(g)
  {
    if |rows| == 0 then Graph([], [])
    else AddEdge(FromEdgelist(rows[..|rows| - 1]), rows[|rows| - 1])
  }

  /** Weight of the last row naming the pair `a`, `b`, if any. */
  function LastWeight(rows: seq<Edge>, a: String, b: String): Option<int>
  {
    if |rows| == 0 then None
    else if Names(rows[|rows| - 1], a, b) then Some(rows[|rows| - 1].weight)
    else LastWeight(rows[..|rows| - 1], a, b)
  }

  /** Two links joining the same pair name the same unordered pair. */
  lemma JoinsBoth(l: Link, e: Edge, a: String, b: String)
    requires Joins(l, e.source, e.target) && Joins(l, a, b)
    ensures Names(e, a, b)
  {
  }

  /** Links with unchanged endpoints are found at the same place. */
  lemma LinkIndexSameEnds(a: seq<Link>, b: seq<Link>, x: String, y: String)
    requires SameEnds(a, b) && SimpleLinks(a) && SimpleLinks(b)
    ensures LinkIndex(a, x, y) == LinkIndex(b, x, y)
  {
    var i := LinkIndex(a, x, y);
    if i < |a| {
      assert Joins(b[i], x, y);
      LinkIndexUnique(b, i, x, y);
    } else {
      assert forall k :: 0 <= k < |b| ==> !Joins(b[k], x, y) by {
        forall k | 0 <= k < |b| ensures !Joins(b[k], x, y) {
          assert !Joins(a[k], x, y);
        }
      }
    }
  }

  /** Adding a row whose pair is already linked. */
  lemma AddEdgeWeightExisting(g: Graph, e: Edge, a: String, b: String)
    requires Valid(g) && LinkIndex(g.links, e.source, e.target) < |g.links|
    ensures LinkWeight(AddEdge(g, e), a, b) == if Names(e, a, b) then Some(e.weight) else LinkWeight(g, a, b)
  {
    var r := AddEdge(g, e);
    var i := LinkIndex(g.links, e.source, e.target);
    assert SameEnds(g.links, r.links);
    LinkIndexSameEnds(g.links, r.links, a, b);
    var j := LinkIndex(g.links, a, b);
    if Names(e, a, b) {
      LinkIndexUnique(g.links, i, a, b);
    } else if j < |g.links| {
      if j == i {
        JoinsBoth(g.links[i], e, a, b);
      }
      assert r.links[j] == g.links[j];
    }
  }

  /** Adding a row whose pair is new. */
  lemma AddEdgeWeightNew(g: Graph, e: Edge, a: String, b: String)
    requires Valid(g) && LinkIndex(g.links, e.source, e.target) == |g.links|
    ensures LinkWeight(AddEdge(g, e), a, b) == if Names(e, a, b) then Some(e.weight) else LinkWeight(g, a, b)
  {
    var r := AddEdge(g, e);
    var n := |g.links|;
    var j := LinkIndex(g.links, a, b);
    if Names(e, a, b) {
      LinkIndexUnique(r.links, n, a, b);
    } else if j < n {
      assert r.links[j] == g.links[j];
      LinkIndexUnique(r.links, j, a, b);
    } else {
      assert forall k :: 0 <= k < |r.links| ==> !Joins(r.links[k], a, b) by {
        forall k | 0 <= k < |r.links| ensures !Joins(r.links[k], a, b) {
          if k < n {
            assert r.links[k] == g.links[k];
          }
        }
      }
    }
  }

  /** Adding a row sets the weight of its own pair and leaves every other
      pair as it was. */
  lemma AddEdgeWeight(g: Graph, e: Edge, a: String, b: String)
    requires Valid(g)
    ensures LinkWeight(AddEdge(g, e), a, b) == if Names(e, a, b) then Some(e.weight) else LinkWeight(g, a, b)
  {
    if LinkIndex(g.links, e.source, e.target) < |g.links| {
      AddEdgeWeightExisting(g, e, a, b);
    } else {
      AddEdgeWeightNew(g, e, a, b);
    }
  }

  /** Two nodes are linked exactly when some row names them, and the link
      carries the weight of the last such row. */
  lemma {:induction false} EdgelistWeights(rows: seq<Edge>, a: String, b: String)
    ensures LinkWeight(FromEdgelist(rows), a, b) == LastWeight(rows, a, b)
  {
    if |rows| > 0 {
      var n := |rows| - 1;
      EdgelistWeights(rows[..n], a, b);
      AddEdgeWeight(FromEdgelist(rows[..n]), rows[n], a, b);
    }
  }

  /** The endpoints of the rows, source before target, row by row. */
  function Endpoints(rows: seq<Edge>): seq<String>
  {
    if |rows| == 0 then []
    else Endpoints(rows[..|rows| - 1]) + [rows[|rows| - 1].source, rows[|rows| - 1].target]
  }

  /** The nodes come in order of first appearance among the endpoints. */
  lemma {:induction false} EndpointsMembers(rows: seq<Edge>, x: String)
    ensures x in Endpoints(rows) <==> exists k :: 0 <= k < |rows| && (rows[k].source == x || rows[k].target == x)
  {
    if |rows| > 0 {
      var n := |rows| - 1;
      EndpointsMembers(rows[..n], x);
      if exists k :: 0 <= k < |rows| && (rows[k].source == x || rows[k].target == x) {
        var k :| 0 <= k < |rows| && (rows[k].source == x || rows[k].target == x);
        if k < n {
          assert rows[..n][k] == rows[k];
        }
      }
      if exists k :: 0 <= k < n && (rows[..n][k].source == x || rows[..n][k].target == x) {
        var k :| 0 <= k < n && (rows[..n][k].source == x || rows[..n][k].target == x);
        assert rows[k] == rows[..n][k];
      }
    }
  }

  lemma {:induction false} EdgelistNodeOrder(rows: seq<Edge>)
    ensures FromEdgelist(rows).nodes == Dedup(Endpoints(rows))
  {
    if |rows| > 0 {
      var n := |rows| - 1;
      var e := rows[n];
      var g := FromEdgelist(rows[..n]);
      EdgelistNodeOrder(rows[..n]);
      AddEdgeNodes(g, e);
      var es := Endpoints(rows[..n]);
      assert Endpoints(rows) == (es + [e.source]) + [e.target];
      DedupSnoc(es, e.source);
      DedupSnoc(es + [e.source], e.target);
      assert e.target in Dedup(es + [e.source]) <==> e.target in es + [e.source];
    }
  }

  /** The nodes of the edge list are exactly the rows' endpoints. */
  lemma EdgelistNodes(rows: seq<Edge>, x: String)
    ensures x in FromEdgelist(rows).nodes <==> exists k :: 0 <= k < |rows| && (rows[k].source == x || rows[k].target == x)
  {
    EdgelistNodeOrder(rows);
    EndpointsMembers(rows, x);
  }

  /** `createGraphObject`'s graph: the edge list, then `G.add_nodes_from`
      applied to a one-column DataFrame, which iterates over the column
      labels and so adds the single node `source`. */
  function CreateGraph(rows: seq<Edge>): (g: Graph)
    ensures Valid(g)
    ensures g.links == FromEdgelist(rows).links
    ensures forall x :: x in g.nodes <==>
      x == "source" || exists k :: 0 <= k < |rows| && (rows[k].source == x || rows[k].target == x)
  {
    var h := FromEdgelist(rows);
    forall x ensures x in h.nodes <==> exists k :: 0 <= k < |rows| && (rows[k].source == x || rows[k].target == x) {
      EdgelistNodes(rows, x);
    }
    Graph(AddNode(h.nodes, "source"), h.links)
  }

  /** How often `n` is an endpoint of `l`: a self-loop counts twice. */
  function Ends(l: Link, n: String): nat
  {
    (if l.u == n then 1 else 0) + (if l.v == n then 1 else 0)
  }

  /** `G.degree(n)`. */
  function Degree(links: seq<Link>, n: String): nat
  {
    if |links| == 0 then 0 else Degree(links[..|links| - 1], n) + Ends(links[|links| - 1], n)
  }

  /** Degrees of the nodes `ns`, summed. */
  function DegreeSum(ns: seq<String>, links: seq<Link>): nat
  {
    if |ns| == 0 then 0 else DegreeSum(ns[..|ns| - 1], links) + Degree(links, ns[|ns| - 1])
  }

  function Occurrences(ns: seq<String>, x: String): nat
  {
    if |ns| == 0 then 0 else Occurrences(ns[..|ns| - 1], x) + (if ns[|ns| - 1] == x then 1 else 0)
  }

  lemma {:induction false} OccursOnce(ns: seq<String>, x: String)
    requires Distinct(ns)
    ensures Occurrences(ns, x) == if x in ns then 1 else 0
  {
    if |ns| > 0 {
      var n := |ns| - 1;
      assert ns == ns[..n] + [ns[n]];
      OccursOnce(ns[..n], x);
    }
  }

  lemma {:induction false} DegreeSumStep(ns: seq<String>, links: seq<Link>, l: Link)
    ensures DegreeSum(ns, links + [l]) == DegreeSum(ns, links) + Occurrences(ns, l.u) + Occurrences(ns, l.v)
  {
    if |ns| > 0 {
      DegreeSumStep(ns[..|ns| - 1], links, l);
      assert (links + [l])[..|links|] == links;
    }
  }

  /** Handshake: the degrees of a graph's nodes add up to twice its number
      of links. */
  lemma {:induction false} Handshake(nodes: seq<String>, links: seq<Link>)
    requires Valid(Graph(nodes, links))
    ensures DegreeSum(nodes, links) == 2 * |links|
  {
    if |links| == 0 {
      DegreeSumEmpty(nodes);
    } else {
      var n := |links| - 1;
      assert links == links[..n] + [links[n]];
      assert Valid(Graph(nodes, links[..n]));
      Handshake(nodes, links[..n]);
      DegreeSumStep(nodes, links[..n], links[n]);
      OccursOnce(nodes, links[n].u);
      OccursOnce(nodes, links[n].v);
    }
  }

  lemma {:induction false} DegreeSumEmpty(ns: seq<String>)
    ensures DegreeSum(ns, []) == 0
  {
    if |ns| > 0 {
      DegreeSumEmpty(ns[..|ns| - 1]);
    }
  }
}
