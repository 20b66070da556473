/** Shortest-path lengths by breadth-first layers, and `nx.diameter` as the
    largest eccentricity. */
module Distance {
  import opened Text
  import opened Graph
  import opened Components

  /** The nodes at most `k` links away from `x`. */
  function Ball(links: seq<Link>, x: String, k: nat): set<String>
  {
    if k == 0 then {x} else Expand(links, Ball(links, x, k - 1))
  }

  /** `y` is more than `k` links away from `x`. */
  predicate Beyond(links: seq<Link>, x: String, y: String, k: nat)
  {
    y !in Ball(links, x, k)
  }

  /** Some walk from `x` to `y` takes at most `k` links. */
  ghost predicate WalkWithin(links: seq<Link>, x: String, y: String, k: nat)
  {
    exists w :: IsWalk(links, w) && w[0] == x && w[|w| - 1] == y && |w| <= k + 1
  }

  lemma {:induction false} BallMonotone(links: seq<Link>, x: String, j: nat, k: nat)
    requires j <= k
    ensures Ball(links, x, j) <= Ball(links, x, k)
  {
    if j < k {
      BallMonotone(links, x, j, k - 1);
    }
  }

  lemma {:induction false} BallHasWalk(links: seq<Link>, x: String, y: String, k: nat)
    requires y in Ball(links, x, k)
    ensures WalkWithin(links, x, y, k)
    decreases k
  {
    if k == 0 {
      assert IsWalk(links, [x]);
    } else if y in Ball(links, x, k - 1) {
      BallHasWalk(links, x, y, k - 1);
      var w :| IsWalk(links, w) && w[0] == x && w[|w| - 1] == y && |w| <= k;
    } else {
      var a := ExpandFrom(links, Ball(links, x, k - 1), y);
      BallHasWalk(links, x, a, k - 1);
      var w :| IsWalk(links, w) && w[0] == x && w[|w| - 1] == a && |w| <= k;
      WalkExtend(links, w, y);
      assert (w + [y])[0] == x;
    }
  }

  lemma {:induction false} WalkInBall(links: seq<Link>, x: String, y: String, k: nat)
    requires WalkWithin(links, x, y, k)
    ensures y in Ball(links, x, k)
    decreases k
  {
    var w :| IsWalk(links, w) && w[0] == x && w[|w| - 1] == y && |w| <= k + 1;
    if |w| == 1 {
      BallMonotone(links, x, 0, k);
    } else {
      var v := w[..|w| - 1];
      assert IsWalk(links, v) by {
        forall i | 0 <= i < |v| - 1 ensures Adjacent(links, v[i], v[i + 1]) {
          assert v[i] == w[i] && v[i + 1] == w[i + 1];
        }
      }
      WalkInBall(links, x, w[|w| - 2], k - 1);
      ExpandAdjacent(links, Ball(links, x, k - 1), w[|w| - 2], y);
    }
  }

  lemma WalkInBallIf(links: seq<Link>, x: String, y: String, k: nat)
    ensures WalkWithin(links, x, y, k) ==> y in Ball(links, x, k)
  {
    if WalkWithin(links, x, y, k) {
      WalkInBall(links, x, y, k);
    }
  }

  lemma {:induction false} BallWithin(g: Graph, x: String, k: nat)
    requires Valid(g) && x in g.nodes
    ensures Ball(g.links, x, k) <= NodeSet(g)
  {
    if k > 0 {
      BallWithin(g, x, k - 1);
      ExpandWithin(g, Ball(g.links, x, k - 1));
    }
  }

  lemma SameSize(s: set<String>, t: set<String>)
    requires s <= t && |s| == |t|
    ensures s == t
  {
    assert t == s + (t - s);
    assert s * (t - s) == {};
  }

  /** Once a layer adds nothing, the ball holds every reachable node. */
  lemma BallStable(g: Graph, x: String, y: String, k: nat)
    requires Valid(g) && x in g.nodes && y in Component(g, x)
    requires |Ball(g.links, x, k + 1)| == |Ball(g.links, x, k)|
    ensures y in Ball(g.links, x, k)
  {
    SameSize(Ball(g.links, x, k), Ball(g.links, x, k + 1));
    BallMonotone(g.links, x, 0, k);
    ClosureLeast(g, {x}, Ball(g.links, x, k));
  }

  /** While the layers grow, fewer nodes stay outside the ball. */
  lemma BallShrinks(g: Graph, x: String, k: nat)
    requires Valid(g) && x in g.nodes
    requires |Ball(g.links, x, k + 1)| != |Ball(g.links, x, k)|
    ensures |NodeSet(g) - Ball(g.links, x, k + 1)| < |NodeSet(g) - Ball(g.links, x, k)|
  {
    BallWithin(g, x, k + 1);
    Shrinks(NodeSet(g), Ball(g.links, x, k), Ball(g.links, x, k + 1));
  }

  lemma BeyondFrom(links: seq<Link>, x: String, y: String, k: nat, d: nat)
    requires Beyond(links, x, y, k)
    requires forall j :: k + 1 <= j < d ==> Beyond(links, x, y, j)
    ensures forall j :: k <= j < d ==> Beyond(links, x, y, j)
  {
  }

  /** The first layer from the `k`-th on that holds `y`. */
  function DistFrom(g: Graph, x: String, y: String, k: nat): (d: nat)
    requires Valid(g) && x in g.nodes && y in Component(g, x)
    ensures k <= d && y in Ball(g.links, x, d)
    ensures forall j :: k <= j < d ==> Beyond(g.links, x, y, j)
    decreases |NodeSet(g) - Ball(g.links, x, k)|
  {
    if y in Ball(g.links, x, k) then k
    else if |Ball(g.links, x, k + 1)| == |Ball(g.links, x, k)| then
      BallStable(g, x, y, k);
      assert false;
      k
    else
      BallShrinks(g, x, k);
      var d := DistFrom(g, x, y, k + 1);
      BeyondFrom(g.links, x, y, k, d);
      d
  }

  /** Shortest-path length from `x` to a node `y` it reaches: the first
      layer holding `y`. */
  function Dist(g: Graph, x: String, y: String): (d: nat)
    requires Valid(g) && x in g.nodes && y in Component(g, x)
    ensures y in Ball(g.links, x, d)
    ensures forall j :: 0 <= j < d ==> Beyond(g.links, x, y, j)
  {
    DistFrom(g, x, y, 0)
  }

  /** `Dist` is the length of a shortest walk: one walk takes that many
      links and none takes fewer. */
  lemma DistIsShortest(g: Graph, x: String, y: String)
    requires Valid(g) && x in g.nodes && y in Component(g, x)
    ensures WalkWithin(g.links, x, y, Dist(g, x, y))
    ensures forall k :: 0 <= k < Dist(g, x, y) ==> !WalkWithin(g.links, x, y, k)
  {
    BallHasWalk(g.links, x, y, Dist(g, x, y));
    forall k | 0 <= k < Dist(g, x, y) ensures !WalkWithin(g.links, x, y, k) {
      assert Beyond(g.links, x, y, k);
      WalkInBallIf(g.links, x, y, k);
    }
  }

  /** `nx.eccentricity(G, x)` over the nodes `ys`: the greatest distance
      from `x`. */
  function Eccentricity(g: Graph, x: String, ys: seq<String>): (e: nat)
    requires Valid(g) && x in g.nodes
    requires forall y :: y in ys ==> y in Component(g, x)
    ensures forall y :: y in ys ==> Dist(g, x, y) <= e
    ensures |ys| > 0 ==> exists y :: y in ys && Dist(g, x, y) == e
  {
    if |ys| == 0 then 0
    else
      var n := |ys| - 1;
      var init, last := ys[..n], ys[n];
      LastSplit(ys);
      var e := Eccentricity(g, x, init);
      var d := Dist(g, x, last);
      if n > 0 && e >= d then e else d
  }

  /** A non-empty sequence is its prefix and its last element. */
  lemma LastSplit(xs: seq<String>)
    requires |xs| > 0
    ensures forall z :: z in xs <==> z in xs[..|xs| - 1] || z == xs[|xs| - 1]
  {
    assert xs == xs[..|xs| - 1] + [xs[|xs| - 1]];
  }

  /** Every node of `xs` is a node whose component holds all of `ys`. */
  predicate Spans(g: Graph, xs: seq<String>, ys: seq<String>)
  {
    && Valid(g)
    && (forall x :: x in xs ==> x in g.nodes)
    && (forall x, y :: x in xs && y in ys && x in g.nodes ==> y in Component(g, x))
  }

  /** `nx.diameter(G)` with `xs` and `ys` both the node list: the largest
      eccentricity. */
  function Diameter(g: Graph, xs: seq<String>, ys: seq<String>): (d: nat)
    requires Spans(g, xs, ys)
    ensures forall x :: x in xs ==> Eccentricity(g, x, ys) <= d
    ensures |xs| > 0 ==> exists x :: x in xs && Eccentricity(g, x, ys) == d
  {
    if |xs| == 0 then 0
    else
      var n := |xs| - 1;
      var init, last := xs[..n], xs[n];
      LastSplit(xs);
      SpansPrefix(g, xs, ys);
      var d := Diameter(g, init, ys);
      var e := Eccentricity(g, last, ys);
      if n > 0 && d >= e then d else e
  }

  lemma SpansPrefix(g: Graph, xs: seq<String>, ys: seq<String>)
    requires Spans(g, xs, ys) && |xs| > 0
    ensures Spans(g, xs[..|xs| - 1], ys)
  {
    LastSplit(xs);
  }

  /** The diameter bounds every distance and, for non-empty node lists,
      is the distance of some pair. */
  lemma DiameterIsMaxDistance(g: Graph, xs: seq<String>, ys: seq<String>)
    requires Spans(g, xs, ys)
    ensures forall x, y :: x in xs && y in ys ==> Dist(g, x, y) <= Diameter(g, xs, ys)
    ensures |xs| > 0 && |ys| > 0 ==>
      exists x, y :: x in xs && y in ys && Dist(g, x, y) == Diameter(g, xs, ys)
  {
    var d := Diameter(g, xs, ys);
    forall x, y | x in xs && y in ys ensures Dist(g, x, y) <= d {
      assert Eccentricity(g, x, ys) <= d;
    }
    if |xs| > 0 && |ys| > 0 {
      var x :| x in xs && Eccentricity(g, x, ys) == d;
      var y :| y in ys && Dist(g, x, y) == Eccentricity(g, x, ys);
    }
  }

  /** A single node has diameter 0. */
  lemma DiameterSingleton(g: Graph, x: String)
    requires Valid(g) && x in g.nodes
    ensures Spans(g, [x], [x]) && Diameter(g, [x], [x]) == 0
  {
    assert Spans(g, [x], [x]);
    assert !Beyond(g.links, x, x, 0);
    assert Dist(g, x, x) == 0;
    assert [x][..0] == [];
    assert Eccentricity(g, x, [x]) == 0;
  }
}
