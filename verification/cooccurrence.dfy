/** The person-by-person co-occurrence matrix both pipelines build, its
    reshaping into `(source, target, weight)` rows (`pd.melt`) and the edge
    filter that keeps the rows above a threshold. */
module CoMatrix {
  import opened Text
  import opened Seqs

  /** A matrix cell: pandas propagates NaN through the product `Cᵀ·C`. */
  datatype Value = NaN | Num(n: int)

  /** A square table indexed by person labels, in row/column order. */
  datatype Matrix = Matrix(labels: seq<String>, cell: map<(String, String), Value>)

  /** Labels are distinct and every ordered pair of labels has a cell. */
  ghost predicate WellFormed(m: Matrix)
  {
    && Distinct(m.labels)
    && forall p :: p in m.cell <==> p.0 in m.labels && p.1 in m.labels
  }

  ghost predicate Symmetric(m: Matrix)
  {
    forall p :: p in m.cell ==> (p.1, p.0) in m.cell && m.cell[p] == m.cell[(p.1, p.0)]
  }

  /** The matrix over `labels` whose cell `(a, b)` is `w(a, b)`. */
  function Tabulate(labels: seq<String>, w: (String, String) -> Value): (m: Matrix)
    requires Distinct(labels)
    ensures WellFormed(m) && m.labels == labels
    ensures forall q :: q in m.cell ==> m.cell[q] == w(q.0, q.1)
  {
    var pairs := set a, b | a in labels && b in labels :: (a, b);
    assert forall q: (String, String) :: q in pairs <==> q.0 in labels && q.1 in labels by {
      forall q: (String, String) | q.0 in labels && q.1 in labels ensures q in pairs {
        assert q == (q.0, q.1);
      }
    }
    Matrix(labels, map q | q in pairs :: w(q.0, q.1))
  }

  /** A symmetric weight gives a symmetric matrix. */
  lemma TabulateSymmetric(labels: seq<String>, w: (String, String) -> Value)
    requires Distinct(labels)
    requires forall a, b :: a in labels && b in labels ==> w(a, b) == w(b, a)
    ensures Symmetric(Tabulate(labels, w))
  {
  }

  /** One row of the long-format table `pd.melt` produces. */
  datatype Row = Row(source: String, target: String, weight: Value)

  /** An edge that survived the filter: its weight is a number. */
  datatype Edge = Edge(source: String, target: String, weight: int)

  /** `row` is the melted cell of a label and one of the `targets`. */
  predicate Melted(m: Matrix, targets: seq<String>, row: Row)
  {
    && row.source in m.labels && row.target in targets
    && (row.source, row.target) in m.cell && row.weight == m.cell[(row.source, row.target)]
  }

  /** The column of target `t`: one row per label, in label order. */
  function Column(m: Matrix, t: String): (r: seq<Row>)
    requires WellFormed(m) && t in m.labels
    ensures |r| == |m.labels|
    ensures forall k :: 0 <= k < |r| ==> r[k] == Row(m.labels[k], t, m.cell[(m.labels[k], t)])
    ensures forall row :: row in r <==> Melted(m, [t], row)
  {
    var r := seq(|m.labels|, k requires 0 <= k < |m.labels| => Row(m.labels[k], t, m.cell[(m.labels[k], t)]));
    forall row ensures row in r <==> Melted(m, [t], row) {
      if row in r {
        var k :| 0 <= k < |r| && r[k] == row;
      }
      if Melted(m, [t], row) {
        var k :| 0 <= k < |m.labels| && m.labels[k] == row.source;
        assert r[k] == row;
      }
    }
    r
  }

  /** `pd.melt(adj, id_vars='source', var_name='target')`: the value columns
      `targets` one after another, each listing every label as source. */
  function Melt(m: Matrix, targets: seq<String>): (r: seq<Row>)
    requires WellFormed(m)
    requires forall t :: t in targets ==> t in m.labels
    ensures |r| == |targets| * |m.labels|
    ensures forall row :: row in r <==> Melted(m, targets, row)
  {
    if |targets| == 0 then []
    else
      var n := |targets| - 1;
      var t := targets[n];
      var init := Melt(m, targets[..n]);
      var col := Column(m, t);
      assert targets == targets[..n] + [t];
      forall row ensures row in init + col <==> Melted(m, targets, row) {
        MeltedSplit(m, targets[..n], t, row);
      }
      LemmaMulDistrib(n, |m.labels|);
      init + col
  }

  lemma MeltedSplit(m: Matrix, targets: seq<String>, t: String, row: Row)
    ensures Melted(m, targets + [t], row) <==> Melted(m, targets, row) || Melted(m, [t], row)
  {
    assert row.target in targets + [t] <==> row.target in targets || row.target == t;
  }

  lemma LemmaMulDistrib(a: nat, b: nat)
    ensures (a + 1) * b == a * b + b
  {
  }

  /** The condition a melted row must meet to become an edge: distinct
      endpoints, neither of them excluded, and a numeric weight strictly
      above `minimum` (NaN compares false). */
  predicate Passes(row: Row, minimum: int, excluded: set<String>)
  {
    && row.source != row.target
    && row.source !in excluded && row.target !in excluded
    && row.weight.Num? && row.weight.n > minimum
  }

  /** `.query('(source != target) & (weight > minimum)')` followed by the
      removal of excluded endpoints. Rows keep their order. */
  function Threshold(rows: seq<Row>, minimum: int, excluded: set<String>): (r: seq<Edge>)
    ensures |r| <= |rows|
    ensures forall e :: e in r <==>
      Row(e.source, e.target, Num(e.weight)) in rows && Passes(Row(e.source, e.target, Num(e.weight)), minimum, excluded)
    ensures forall e :: e in r ==> e.source != e.target && e.weight > minimum
    ensures forall e :: e in r ==> e.source !in excluded && e.target !in excluded
  {
    if |rows| == 0 then []
    else
      var init := Threshold(rows[..|rows| - 1], minimum, excluded);
      var last := rows[|rows| - 1];
      assert forall row :: row in rows <==> row in rows[..|rows| - 1] || row == last by {
        assert rows == rows[..|rows| - 1] + [last];
      }
      if Passes(last, minimum, excluded) then init + [Edge(last.source, last.target, last.weight.n)]
      else init
  }

  /** The edge list of a melted matrix holds exactly the off-diagonal cells
      above the threshold. */
  lemma EdgesOfMatrix(m: Matrix, targets: seq<String>, minimum: int, excluded: set<String>, a: String, b: String, w: int)
    requires WellFormed(m)
    requires forall t :: t in targets ==> t in m.labels
    ensures Edge(a, b, w) in Threshold(Melt(m, targets), minimum, excluded) <==>
      && a in m.labels && b in targets && m.cell[(a, b)] == Num(w)
      && a != b && w > minimum && a !in excluded && b !in excluded
  {
  }

  /** With a symmetric matrix, a row `(a, b, w)` is an edge exactly when
      `(b, a, w)` is, provided both endpoints are value columns. */
  lemma EdgesMirror(m: Matrix, targets: seq<String>, minimum: int, excluded: set<String>, a: String, b: String, w: int)
    requires WellFormed(m) && Symmetric(m)
    requires forall t :: t in targets ==> t in m.labels
    requires a in targets && b in targets
    ensures Edge(a, b, w) in Threshold(Melt(m, targets), minimum, excluded) <==>
            Edge(b, a, w) in Threshold(Melt(m, targets), minimum, excluded)
  {
    EdgesOfMatrix(m, targets, minimum, excluded, a, b, w);
    EdgesOfMatrix(m, targets, minimum, excluded, b, a, w);
    if (a, b) in m.cell {
      assert m.cell[(a, b)] == m.cell[(b, a)];
    }
  }
}
