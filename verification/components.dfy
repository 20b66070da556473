/** Connected components as `nx.connected_components` enumerates them, and
    the largest one as `max(components, key=len)` picks it. */
module Components {
  import opened Text
  import opened Seqs
  import opened Graph

  function NodeSet(g: Graph): (s: set<String>)
    ensures forall x :: x in s <==> x in g.nodes
  {
    set x | x in g.nodes
  }

  /** Some link joins `a` and `b`. */
  predicate Adjacent(links: seq<Link>, a: String, b: String)
  {
    exists i :: 0 <= i < |links| && Joins(links[i], a, b)
  }

  /** A sequence of nodes, each adjacent to the next. */
  ghost predicate IsWalk(links: seq<Link>, w: seq<String>)
  {
    |w| > 0 && forall i :: 0 <= i < |w| - 1 ==> Adjacent(links, w[i], w[i + 1])
  }

  ghost predicate Reachable(links: seq<Link>, a: String, b: String)
  {
    exists w :: IsWalk(links, w) && w[0] == a && w[|w| - 1] == b
  }

  /** The nodes linked to a member of `s`. */
  function Neighbours(links: seq<Link>, s: set<String>): set<String>
  {
    if |links| == 0 then {}
    else
      var l := links[|links| - 1];
      Neighbours(links[..|links| - 1], s)
      + (if l.u in s then {l.v} else {})
      + (if l.v in s then {l.u} else {})
  }

  /** `s` together with every neighbour of a member of `s`. */
  function Expand(links: seq<Link>, s: set<String>): (t: set<String>)
    ensures s <= t
  {
    s + Neighbours(links, s)
  }

  lemma {:induction false} NeighboursAdjacent(links: seq<Link>, s: set<String>, a: String, b: String, i: nat)
    requires a in s && i < |links| && Joins(links[i], a, b)
    ensures b in Neighbours(links, s)
  {
    var n := |links| - 1;
    if i < n {
      assert links[..n][i] == links[i];
      NeighboursAdjacent(links[..n], s, a, b, i);
    }
  }

  lemma ExpandAdjacent(links: seq<Link>, s: set<String>, a: String, b: String)
    requires a in s && Adjacent(links, a, b)
    ensures b in Expand(links, s)
  {
    var i :| 0 <= i < |links| && Joins(links[i], a, b);
    NeighboursAdjacent(links, s, a, b, i);
  }

  lemma {:induction false} NeighboursFrom(links: seq<Link>, s: set<String>, b: String) returns (a: String)
    requires b in Neighbours(links, s)
    ensures a in s && Adjacent(links, a, b)
  {
    var n := |links| - 1;
    var l := links[n];
    if b in Neighbours(links[..n], s) {
      a := NeighboursFrom(links[..n], s, b);
      var i :| 0 <= i < n && Joins(links[..n][i], a, b);
      assert links[i] == links[..n][i];
    } else if l.u in s && l.v == b {
      a := l.u;
      assert Joins(links[n], a, b);
    } else {
      a := l.v;
      assert Joins(links[n], a, b);
    }
  }

  lemma ExpandFrom(links: seq<Link>, s: set<String>, b: String) returns (a: String)
    requires b in Expand(links, s) && b !in s
    ensures a in s && Adjacent(links, a, b)
  {
    a := NeighboursFrom(links, s, b);
  }

  lemma ExpandWithin(g: Graph, s: set<String>)
    requires Valid(g) && s <= NodeSet(g)
    ensures Expand(g.links, s) <= NodeSet(g)
  {
    forall y | y in Expand(g.links, s) ensures y in g.nodes {
      if y !in s {
        var a := ExpandFrom(g.links, s, y);
        var i :| 0 <= i < |g.links| && Joins(g.links[i], a, y);
      }
    }
  }

  lemma Shrinks(all: set<String>, s: set<String>, t: set<String>)
    requires s <= t <= all && t != s
    ensures |all - t| < |all - s|
  {
    var y :| y in t && y !in s;
    assert all - s == (all - t) + (t - s);
    assert (all - t) * (t - s) == {};
    assert y in t - s;
  }

  /** The least set containing `s` closed under adjacency (breadth-first
      search, one layer per step). */
  function Closure(g: Graph, s: set<String>): (c: set<String>)
    requires Valid(g) && s <= NodeSet(g)
    ensures s <= c <= NodeSet(g)
    ensures Expand(g.links, c) == c
    decreases |NodeSet(g) - s|
  {
    var t := Expand(g.links, s);
    ExpandWithin(g, s);
    if t == s then s
    else
      Shrinks(NodeSet(g), s, t);
      Closure(g, t)
  }

  lemma {:induction false} NeighboursMonotone(links: seq<Link>, s: set<String>, c: set<String>)
    requires s <= c
    ensures Neighbours(links, s) <= Neighbours(links, c)
  {
    if |links| > 0 {
      NeighboursMonotone(links[..|links| - 1], s, c);
    }
  }

  /** The closure is the least closed superset. */
  lemma {:induction false} ClosureLeast(g: Graph, s: set<String>, c: set<String>)
    requires Valid(g) && s <= NodeSet(g) && s <= c && Expand(g.links, c) == c
    ensures Closure(g, s) <= c
    decreases |NodeSet(g) - s|
  {
    var t := Expand(g.links, s);
    ExpandWithin(g, s);
    NeighboursMonotone(g.links, s, c);
    if t != s {
      Shrinks(NodeSet(g), s, t);
      ClosureLeast(g, t, c);
    }
  }

  /** The component of `x`: `_plain_bfs(G, x)`. */
  function Component(g: Graph, x: String): (c: set<String>)
    requires Valid(g) && x in g.nodes
    ensures x in c && c <= NodeSet(g)
  {
    Closure(g, {x})
  }

  lemma WalkExtend(links: seq<Link>, w: seq<String>, b: String)
    requires IsWalk(links, w) && Adjacent(links, w[|w| - 1], b)
    ensures IsWalk(links, w + [b])
  {
    var v := w + [b];
    forall i | 0 <= i < |v| - 1 ensures Adjacent(links, v[i], v[i + 1]) {
      if i < |w| - 1 {
        assert v[i] == w[i] && v[i + 1] == w[i + 1];
      }
    }
  }

  /** Every member of the closure of a reachable set is reachable. */
  lemma {:induction false} ClosureSound(g: Graph, s: set<String>, x: String)
    requires Valid(g) && s <= NodeSet(g)
    requires forall y :: y in s ==> Reachable(g.links, x, y)
    ensures forall y :: y in Closure(g, s) ==> Reachable(g.links, x, y)
    decreases |NodeSet(g) - s|
  {
    var t := Expand(g.links, s);
    ExpandWithin(g, s);
    if t != s {
      forall b | b in t ensures Reachable(g.links, x, b) {
        if b !in s {
          var a := ExpandFrom(g.links, s, b);
          var w :| IsWalk(g.links, w) && w[0] == x && w[|w| - 1] == a;
          WalkExtend(g.links, w, b);
          assert (w + [b])[0] == x;
        }
      }
      Shrinks(NodeSet(g), s, t);
      ClosureSound(g, t, x);
    }
  }

  /** A walk that starts in a set closed under adjacency stays in it. */
  lemma {:induction false} ClosedContainsWalk(links: seq<Link>, c: set<String>, w: seq<String>)
    requires Expand(links, c) == c
    requires IsWalk(links, w) && w[0] in c
    ensures w[|w| - 1] in c
  {
    if |w| > 1 {
      var v := w[..|w| - 1];
      assert IsWalk(links, v) by {
        forall i | 0 <= i < |v| - 1 ensures Adjacent(links, v[i], v[i + 1]) {
          assert v[i] == w[i] && v[i + 1] == w[i + 1];
        }
      }
      ClosedContainsWalk(links, c, v);
      ExpandAdjacent(links, c, w[|w| - 2], w[|w| - 1]);
    }
  }

  lemma ClosedContains(links: seq<Link>, c: set<String>, a: String, b: String)
    requires Expand(links, c) == c && a in c && Reachable(links, a, b)
    ensures b in c
  {
    var w :| IsWalk(links, w) && w[0] == a && w[|w| - 1] == b;
    ClosedContainsWalk(links, c, w);
  }

  lemma ReachableSelf(links: seq<Link>, x: String)
    ensures Reachable(links, x, x)
  {
    assert IsWalk(links, [x]);
  }

  /** A node's component holds exactly the nodes reachable from it. */
  lemma ComponentIsReachable(g: Graph, x: String, y: String)
    requires Valid(g) && x in g.nodes
    ensures y in Component(g, x) <==> Reachable(g.links, x, y)
  {
    ReachableSelf(g.links, x);
    ClosureSound(g, {x}, x);
    if Reachable(g.links, x, y) {
      ClosedContains(g.links, Component(g, x), x, y);
    }
  }

  function Reverse(w: seq<String>): (r: seq<String>)
    ensures |r| == |w|
    ensures forall i :: 0 <= i < |w| ==> r[i] == w[|w| - 1 - i]
  {
    seq(|w|, i requires 0 <= i < |w| => w[|w| - 1 - i])
  }

  lemma ReachableSymmetric(links: seq<Link>, a: String, b: String)
    requires Reachable(links, a, b)
    ensures Reachable(links, b, a)
  {
    var w :| IsWalk(links, w) && w[0] == a && w[|w| - 1] == b;
    var r := Reverse(w);
    forall i | 0 <= i < |r| - 1 ensures Adjacent(links, r[i], r[i + 1]) {
      var j := |w| - 2 - i;
      assert Adjacent(links, w[j], w[j + 1]);
      var k :| 0 <= k < |links| && Joins(links[k], w[j], w[j + 1]);
      assert Joins(links[k], r[i], r[i + 1]);
    }
    assert IsWalk(links, r);
  }

  lemma ReachableTransitive(links: seq<Link>, a: String, b: String, c: String)
    requires Reachable(links, a, b) && Reachable(links, b, c)
    ensures Reachable(links, a, c)
  {
    var v :| IsWalk(links, v) && v[0] == a && v[|v| - 1] == b;
    var w :| IsWalk(links, w) && w[0] == b && w[|w| - 1] == c;
    var u := v + w[1..];
    forall i | 0 <= i < |u| - 1 ensures Adjacent(links, u[i], u[i + 1]) {
      if i < |v| - 1 {
        assert u[i] == v[i] && u[i + 1] == v[i + 1];
      } else {
        var j := i - |v| + 1;
        assert u[i] == w[j] && u[i + 1] == w[j + 1];
      }
    }
    assert IsWalk(links, u);
  }

  /** Components are equivalence classes: any member names the same one. */
  lemma SameComponent(g: Graph, x: String, y: String)
    requires Valid(g) && x in g.nodes && y in Component(g, x)
    ensures Component(g, y) == Component(g, x)
  {
    ComponentIsReachable(g, x, y);
    forall z ensures z in Component(g, y) <==> z in Component(g, x) {
      ComponentIsReachable(g, x, z);
      ComponentIsReachable(g, y, z);
      if Reachable(g.links, y, z) {
        ReachableTransitive(g.links, x, y, z);
      }
      if Reachable(g.links, x, z) {
        ReachableSymmetric(g.links, x, y);
        ReachableTransitive(g.links, y, x, z);
      }
    }
  }

  /** `x` lies in the component of one of the roots `rs`. */
  predicate Covered(g: Graph, rs: seq<String>, x: String)
    requires Valid(g) && forall r :: r in rs ==> r in g.nodes
  {
    exists r :: r in rs && x in Component(g, r)
  }

  /** The nodes among the first `n` that start a new component: those not
      already in the component of an earlier root. */
  function Roots(g: Graph, n: nat): (rs: seq<String>)
    requires Valid(g) && n <= |g.nodes|
    ensures forall r :: r in rs ==> r in g.nodes
  {
    if n == 0 then []
    else
      var rs := Roots(g, n - 1);
      var x := g.nodes[n - 1];
      if Covered(g, rs, x) then rs else rs + [x]
  }

  /** Every scanned node is covered by a root. */
  lemma {:induction false} RootsCover(g: Graph, n: nat, k: nat)
    requires Valid(g) && k < n <= |g.nodes|
    ensures Covered(g, Roots(g, n), g.nodes[k])
  {
    var rs := Roots(g, n - 1);
    var x := g.nodes[n - 1];
    if k < n - 1 {
      RootsCover(g, n - 1, k);
      var r :| r in rs && g.nodes[k] in Component(g, r);
      assert r in Roots(g, n);
    } else if !Covered(g, rs, x) {
      assert x in Roots(g, n) && x in Component(g, x);
    }
  }

  /** Membership in components is symmetric. */
  lemma ComponentSymmetric(g: Graph, x: String, z: String)
    requires Valid(g) && x in g.nodes && z in g.nodes
    ensures z in Component(g, x) <==> x in Component(g, z)
  {
    ComponentIsReachable(g, x, z);
    ComponentIsReachable(g, z, x);
    if Reachable(g.links, x, z) {
      ReachableSymmetric(g.links, x, z);
    }
    if Reachable(g.links, z, x) {
      ReachableSymmetric(g.links, z, x);
    }
  }

  /** A later root is never reachable from an earlier one. */
  lemma {:induction false} RootsApart(g: Graph, n: nat, i: nat, j: nat)
    requires Valid(g) && n <= |g.nodes| && i < j < |Roots(g, n)|
    ensures !Reachable(g.links, Roots(g, n)[i], Roots(g, n)[j])
  {
    var rs := Roots(g, n - 1);
    var x := g.nodes[n - 1];
    if j < |rs| {
      RootsApart(g, n - 1, i, j);
      assert Roots(g, n)[i] == rs[i] && Roots(g, n)[j] == rs[j];
    } else {
      assert Roots(g, n) == rs + [x] && Roots(g, n)[i] == rs[i] && rs[i] in rs;
      ComponentIsReachable(g, rs[i], x);
    }
  }

  /** `nx.connected_components(G)`: the components of the roots, in node order. */
  function ConnectedComponents(g: Graph): (cs: seq<set<String>>)
    requires Valid(g)
    ensures |cs| == |Roots(g, |g.nodes|)|
    ensures forall i :: 0 <= i < |cs| ==> cs[i] == Component(g, Roots(g, |g.nodes|)[i])
  {
    var rs := Roots(g, |g.nodes|);
    seq(|rs|, i requires 0 <= i < |rs| => Component(g, rs[i]))
  }

  /** The enumeration is a partition of the nodes into reachability
      classes: every node lies in one of them, and two nodes share one
      exactly when a walk joins them. */
  lemma ComponentsPartition(g: Graph, i: nat, x: String, y: String)
    requires Valid(g) && i < |ConnectedComponents(g)|
    requires x in ConnectedComponents(g)[i]
    ensures y in ConnectedComponents(g)[i] <==> Reachable(g.links, x, y)
  {
    var r := Roots(g, |g.nodes|)[i];
    SameComponent(g, r, x);
    ComponentIsReachable(g, x, y);
  }

  lemma ComponentsCover(g: Graph, x: String) returns (i: nat)
    requires Valid(g) && x in g.nodes
    ensures i < |ConnectedComponents(g)| && x in ConnectedComponents(g)[i]
  {
    var rs := Roots(g, |g.nodes|);
    var k :| 0 <= k < |g.nodes| && g.nodes[k] == x;
    RootsCover(g, |g.nodes|, k);
    var r :| r in rs && x in Component(g, r);
    i :| 0 <= i < |rs| && rs[i] == r;
  }

  /** A graph with nodes has at least one component. */
  lemma ComponentsExist(g: Graph)
    requires Valid(g) && |g.nodes| > 0
    ensures |ConnectedComponents(g)| > 0
  {
    var i := ComponentsCover(g, g.nodes[0]);
  }

  /** Distinct components do not overlap. */
  lemma ComponentsDisjoint(g: Graph, i: nat, j: nat)
    requires Valid(g) && i < j < |ConnectedComponents(g)|
    ensures ConnectedComponents(g)[i] * ConnectedComponents(g)[j] == {}
  {
    var cs := ConnectedComponents(g);
    var rs := Roots(g, |g.nodes|);
    RootsApart(g, |g.nodes|, i, j);
    forall z | z in cs[i] ensures z !in cs[j] {
      ComponentsPartition(g, i, rs[i], z);
      ComponentsPartition(g, j, rs[j], z);
      ComponentIsReachable(g, rs[i], rs[i]);
      ComponentIsReachable(g, rs[j], rs[j]);
      if Reachable(g.links, rs[j], z) {
        ReachableSymmetric(g.links, rs[j], z);
        if Reachable(g.links, rs[i], z) {
          ReachableTransitive(g.links, rs[i], z, rs[j]);
        }
      }
    }
  }

  /** `max(components, key=len)`: the first component of greatest size. */
  function LargestIndex(cs: seq<set<String>>): (i: nat)
    requires |cs| > 0
    ensures i < |cs|
    ensures forall j :: 0 <= j < |cs| ==> |cs[j]| <= |cs[i]|
    ensures forall j :: 0 <= j < i ==> |cs[j]| < |cs[i]|
  {
    if |cs| == 1 then 0
    else
      var n := |cs| - 1;
      var i := LargestIndex(cs[..n]);
      assert forall j :: 0 <= j < n ==> cs[..n][j] == cs[j];
      if |cs[n]| > |cs[i]| then n else i
  }

  /** `nx.is_connected(G)` for a graph with nodes. */
  predicate IsConnected(g: Graph)
    requires Valid(g)
  {
    |ConnectedComponents(g)| == 1
  }

  /** A graph with nodes is connected exactly when every node reaches every
      other. */
  lemma ConnectedIffReachable(g: Graph)
    requires Valid(g) && |g.nodes| > 0
    ensures IsConnected(g) <==> forall x, y :: x in g.nodes && y in g.nodes ==> Reachable(g.links, x, y)
  {
    var cs := ConnectedComponents(g);
    var rs := Roots(g, |g.nodes|);
    if IsConnected(g) {
      forall x, y | x in g.nodes && y in g.nodes ensures Reachable(g.links, x, y) {
        var i := ComponentsCover(g, x);
        var j := ComponentsCover(g, y);
        ComponentsPartition(g, 0, x, y);
      }
    }
    var i := ComponentsCover(g, g.nodes[0]);
    if |rs| > 1 {
      RootsApart(g, |g.nodes|, 0, 1);
    }
  }
}
