/** `G.subgraph(nodes)` for a set of nodes closed under adjacency: the
    induced subgraph keeps every degree and every walk. */
module Subgraph {
  import opened Text
  import opened Seqs
  import opened Graph
  import opened Components

  /** Every link has both endpoints in `c` or neither. */
  predicate ClosedUnder(links: seq<Link>, c: set<String>)
  {
    forall i :: 0 <= i < |links| ==> (links[i].u in c <==> links[i].v in c)
  }

  /** A component is closed under adjacency. */
  lemma ComponentClosed(g: Graph, x: String)
    requires Valid(g) && x in g.nodes
    ensures ClosedUnder(g.links, Component(g, x))
  {
    var c := Component(g, x);
    assert Expand(g.links, c) == c;
    forall i | 0 <= i < |g.links| ensures g.links[i].u in c <==> g.links[i].v in c {
      assert Joins(g.links[i], g.links[i].u, g.links[i].v);
      assert Joins(g.links[i], g.links[i].v, g.links[i].u);
      if g.links[i].u in c {
        ExpandAdjacent(g.links, c, g.links[i].u, g.links[i].v);
      }
      if g.links[i].v in c {
        ExpandAdjacent(g.links, c, g.links[i].v, g.links[i].u);
      }
    }
  }

  /** The links with both endpoints in `c`, in their order. */
  function InducedLinks(links: seq<Link>, c: set<String>): (r: seq<Link>)
    ensures forall l :: l in r <==> l in links && l.u in c && l.v in c
  {
    if |links| == 0 then []
    else
      var n := |links| - 1;
      assert links == links[..n] + [links[n]];
      var r := InducedLinks(links[..n], c);
      if links[n].u in c && links[n].v in c then r + [links[n]] else r
  }

  lemma {:induction false} InducedSimple(links: seq<Link>, c: set<String>)
    requires SimpleLinks(links)
    ensures SimpleLinks(InducedLinks(links, c))
  {
    if |links| > 0 {
      var n := |links| - 1;
      var l := links[n];
      var r := InducedLinks(links[..n], c);
      assert SimpleLinks(links[..n]);
      InducedSimple(links[..n], c);
      if l.u in c && l.v in c {
        var s := r + [l];
        forall i, j | 0 <= i < j < |s| ensures !Joins(s[i], s[j].u, s[j].v) {
          assert s[i] == r[i] && r[i] in links[..n];
          if j < |r| {
            assert s[j] == r[j];
          } else {
            var k :| 0 <= k < n && links[..n][k] == r[i];
            assert links[k] == r[i];
          }
        }
      }
    }
  }

  /** `G.subgraph(c)`: the nodes of `c` in `G`'s order and the links
      between them. */
  function Induced(g: Graph, c: set<String>): (h: Graph)
    requires Valid(g)
    ensures Valid(h)
    ensures forall x :: x in h.nodes <==> x in g.nodes && x in c
    ensures h.links == InducedLinks(g.links, c)
  {
    FilterDistinct(g.nodes, x => x in c);
    InducedSimple(g.links, c);
    var h := Graph(Filter(g.nodes, x => x in c), InducedLinks(g.links, c));
    assert forall i :: 0 <= i < |h.links| ==> h.links[i] in g.links;
    h
  }

  /** In a closed set, a node keeps its degree in the induced subgraph. */
  lemma {:induction false} InducedDegree(links: seq<Link>, c: set<String>, x: String)
    requires ClosedUnder(links, c) && x in c
    ensures Degree(InducedLinks(links, c), x) == Degree(links, x)
  {
    if |links| > 0 {
      var n := |links| - 1;
      assert ClosedUnder(links[..n], c);
      InducedDegree(links[..n], c, x);
      var r := InducedLinks(links[..n], c);
      if links[n].u in c && links[n].v in c {
        assert (r + [links[n]])[..|r|] == r;
      }
    }
  }

  /** A walk of `G` inside a closed set is a walk of the induced subgraph. */
  lemma {:induction false} InducedWalk(links: seq<Link>, c: set<String>, w: seq<String>)
    requires Expand(links, c) == c && IsWalk(links, w) && w[0] in c
    ensures IsWalk(InducedLinks(links, c), w)
  {
    forall i | 0 <= i < |w| - 1 ensures Adjacent(InducedLinks(links, c), w[i], w[i + 1]) {
      ClosedContainsWalk(links, c, w[..i + 1]);
      assert w[..i + 1][i] == w[i];
      ExpandAdjacent(links, c, w[i], w[i + 1]);
      var k :| 0 <= k < |links| && Joins(links[k], w[i], w[i + 1]);
      var r := InducedLinks(links, c);
      assert links[k] in r;
      var j :| 0 <= j < |r| && r[j] == links[k];
    }
  }

  /** Nodes of one component reach each other inside its induced subgraph. */
  lemma InducedConnected(g: Graph, x: String, a: String, b: String)
    requires Valid(g) && x in g.nodes
    requires a in Component(g, x) && b in Component(g, x)
    ensures Reachable(Induced(g, Component(g, x)).links, a, b)
  {
    var c := Component(g, x);
    ComponentIsReachable(g, x, a);
    ComponentIsReachable(g, x, b);
    ReachableSymmetric(g.links, x, a);
    ReachableTransitive(g.links, a, x, b);
    var w :| IsWalk(g.links, w) && w[0] == a && w[|w| - 1] == b;
    InducedWalk(g.links, c, w);
  }
}
