/** The co-occurrence matrix and edge list of the diary-entry ("JQA")
    variant: rows naming the sentinels `u` and `source` are dropped, the
    entry-by-person crosstab `C` is multiplied out as `Cᵀ·C`, the diagonal is
    zeroed, and the melted matrix keeps the rows with weight above 15. */
module JqaMatrix {
  import opened Text
  import opened Seqs
  import opened Order
  import opened CoMatrix
  import opened JqaExpand

  /** Person values that never enter the matrix. */
  const Sentinels: set<String> := {"u", "source"}

  /** Rows need a weight strictly above this to become edges. */
  const MinWeight: int := 15

  predicate NotSentinel(m: Mention)
  {
    m.person !in Sentinels
  }

  /** `df.query('(people != "u") & (people != "source")')`. */
  function DropSentinels(ms: seq<Mention>): (r: seq<Mention>)
    ensures forall m :: m in r <==> m in ms && m.person !in Sentinels
  {
    Filter(ms, NotSentinel)
  }

  /** Crosstab cell: the number of rows pairing entry `e` with person `p`. */
  function Count(ms: seq<Mention>, e: String, p: String): nat
  {
    if |ms| == 0 then 0
    else Count(ms[..|ms| - 1], e, p) + (if ms[|ms| - 1].entry == e && ms[|ms| - 1].person == p then 1 else 0)
  }

  lemma {:induction false} CountConcat(xs: seq<Mention>, ys: seq<Mention>, e: String, p: String)
    ensures Count(xs + ys, e, p) == Count(xs, e, p) + Count(ys, e, p)
  {
    if |ys| > 0 {
      var n := |ys| - 1;
      var zs := xs + ys;
      assert zs[..|zs| - 1] == xs + ys[..n];
      assert zs[|zs| - 1] == ys[n];
      CountConcat(xs, ys[..n], e, p);
    } else {
      assert xs + ys == xs;
    }
  }

  /** Among rows sharing their other columns, a crosstab cell counts the
      copies of one row. */
  lemma {:induction false} CountIsMultiplicity(ms: seq<Mention>, e: String, p: String, rest: seq<String>)
    requires forall k :: 0 <= k < |ms| ==> ms[k].rest == rest
    ensures Count(ms, e, p) == multiset(ms)[Mention(e, p, rest)]
  {
    if |ms| > 0 {
      var n := |ms| - 1;
      CountIsMultiplicity(ms[..n], e, p, rest);
      assert ms == ms[..n] + [ms[n]];
      assert multiset(ms) == multiset(ms[..n]) + multiset{ms[n]};
    }
  }

  /** The rows exploded from one record's pieces fill its entry's cells,
      one count per piece. */
  lemma CountExplode(entry: String, pieces: seq<String>, rest: seq<String>, e: String, p: String)
    ensures Count(Explode(entry, pieces, rest), e, p) == if entry == e then PieceCount(pieces, p) else 0
  {
    var r := Explode(entry, pieces, rest);
    forall k | 0 <= k < |r| ensures r[k].rest == rest {
      assert r[k] in r;
    }
    CountIsMultiplicity(r, e, p, rest);
  }

  /** The crosstab of the expanded table counts, for entry `e` and person
      `p`, every piece of every complete record with that entry that strips
      to `p`: a person named twice in one entry counts twice. */
  lemma {:induction false} CountFromRecords(recs: seq<Record>, e: String, p: String)
    ensures Count(CreateDataframe(recs), e, p) == EntryCount(recs, e, p)
  {
    if |recs| > 0 {
      var n := |recs| - 1;
      var rec := recs[n];
      CountFromRecords(recs[..n], e, p);
      assert CreateDataframe(recs) == CreateDataframe(recs[..n]) + ExpandRecord(rec);
      CountConcat(CreateDataframe(recs[..n]), ExpandRecord(rec), e, p);
      if Complete(rec) {
        CountExplode(rec.entry.value, Split(rec.people.value), Values(rec.rest), e, p);
      }
    }
  }

  /** Some row has entry `e`. */
  predicate RowEntry(ms: seq<Mention>, e: String)
  {
    exists k :: 0 <= k < |ms| && ms[k].entry == e
  }

  /** The entries of the rows, each once and nothing else (the crosstab's
      row index). */
  function Entries(ms: seq<Mention>): (es: seq<String>)
    ensures Distinct(es)
    ensures forall k :: 0 <= k < |ms| ==> ms[k].entry in es
    ensures forall e :: e in es ==> RowEntry(ms, e)
  {
    if |ms| == 0 then []
    else
      var n := |ms| - 1;
      var es := Entries(ms[..n]);
      assert forall k :: 0 <= k < n ==> ms[..n][k] == ms[k];
      if ms[n].entry in es then es
      else
        DistinctConcat(es, [ms[n].entry]);
        es + [ms[n].entry]
  }

  /** The people of the rows, sorted and each once (the crosstab's columns). */
  function People(ms: seq<Mention>): (ps: seq<String>)
    ensures StrictlySorted(ps)
    ensures forall p :: p in ps <==> exists m :: m in ms && m.person == p
  {
    var all := seq(|ms|, k requires 0 <= k < |ms| => ms[k].person);
    assert forall p :: p in all <==> exists m :: m in ms && m.person == p by {
      forall p | p in all ensures exists m :: m in ms && m.person == p {
        var k :| 0 <= k < |all| && all[k] == p;
        assert ms[k] in ms;
      }
      forall p | exists m :: m in ms && m.person == p ensures p in all {
        var m :| m in ms && m.person == p;
        var k :| 0 <= k < |ms| && ms[k] == m;
        assert all[k] == p;
      }
    }
    Sorted(all)
  }

  /** Entry `(a, b)` of `Lᵀ·R` restricted to the entries `es`:
      the sum over `e` of `L[e][a] · R[e][b]`. */
  function Product(left: seq<Mention>, right: seq<Mention>, es: seq<String>, a: String, b: String): int
  {
    if |es| == 0 then 0
    else
      var e := es[|es| - 1];
      Product(left, right, es[..|es| - 1], a, b) + Count(left, e, a) * Count(right, e, b)
  }

  /** `Cᵀ·C` is symmetric. */
  lemma {:induction false} ProductSymmetric(ms: seq<Mention>, es: seq<String>, a: String, b: String)
    ensures Product(ms, ms, es, a, b) == Product(ms, ms, es, b, a)
  {
    if |es| > 0 {
      ProductSymmetric(ms, es[..|es| - 1], a, b);
    }
  }

  /** Reference definition of a co-occurrence weight: the number of ordered
      pairs of rows `(x, y)`, `x` drawn from `xs` and `y` from `right`, that
      share their entry while `x` names `a` and `y` names `b`. */
  function PairsFrom(xs: seq<Mention>, right: seq<Mention>, a: String, b: String): int
  {
    if |xs| == 0 then 0
    else
      var x := xs[|xs| - 1];
      PairsFrom(xs[..|xs| - 1], right, a, b) + (if x.person == a then Count(right, x.entry, b) else 0)
  }

  function PairCount(ms: seq<Mention>, a: String, b: String): int
  {
    PairsFrom(ms, ms, a, b)
  }

  /** The last row of the left factor adds its contribution to the sum
      over the entries, once, if its entry is among them. */
  lemma {:induction false} ProductStep(xs: seq<Mention>, right: seq<Mention>, es: seq<String>, a: String, b: String)
    requires |xs| > 0 && Distinct(es)
    ensures var x := xs[|xs| - 1];
      Product(xs, right, es, a, b)
        == Product(xs[..|xs| - 1], right, es, a, b) + (if x.entry in es && x.person == a then Count(right, x.entry, b) else 0)
  {
    if |es| > 0 {
      var x := xs[|xs| - 1];
      var n := |es| - 1;
      var e := es[n];
      ProductStep(xs, right, es[..n], a, b);
      assert es == es[..n] + [e];
      assert x.entry in es <==> x.entry in es[..n] || x.entry == e;
      assert e !in es[..n];
      CountTermStep(xs, e, a, Count(right, e, b));
    }
  }

  /** The last row changes one entry's term `C[e][a] · d` by `d` at most. */
  lemma CountTermStep(xs: seq<Mention>, e: String, a: String, d: int)
    requires |xs| > 0
    ensures var x := xs[|xs| - 1];
      Count(xs, e, a) * d
        == Count(xs[..|xs| - 1], e, a) * d + (if x.entry == e && x.person == a then d else 0)
  {
    var x, c := xs[|xs| - 1], Count(xs[..|xs| - 1], e, a);
    if x.entry == e && x.person == a {
      assert Count(xs, e, a) == c + 1;
      MulSucc(c, d);
    } else {
      assert Count(xs, e, a) == c;
    }
  }

  lemma MulSucc(c: int, d: int)
    ensures (c + 1) * d == c * d + d
  {
  }

  lemma {:induction false} CountAbsent(xs: seq<Mention>, e: String, p: String)
    requires forall k :: 0 <= k < |xs| ==> xs[k].entry != e
    ensures Count(xs, e, p) == 0
  {
    if |xs| > 0 {
      CountAbsent(xs[..|xs| - 1], e, p);
    }
  }

  /** The last row, when its entry is new, is the only row of that entry. */
  lemma CountNewEntry(xs: seq<Mention>, a: String)
    requires |xs| > 0
    requires xs[|xs| - 1].entry !in Entries(xs[..|xs| - 1])
    ensures Count(xs, xs[|xs| - 1].entry, a) == if xs[|xs| - 1].person == a then 1 else 0
  {
    var init := xs[..|xs| - 1];
    assert forall k :: 0 <= k < |init| ==> init[k].entry in Entries(init);
    CountAbsent(init, xs[|xs| - 1].entry, a);
  }

  /** The last row adds its contribution to the product over the entries,
      whether or not its entry was new. */
  lemma ProductAppend(xs: seq<Mention>, right: seq<Mention>, a: String, b: String)
    requires |xs| > 0
    ensures var x := xs[|xs| - 1];
      Product(xs, right, Entries(xs), a, b)
        == Product(xs[..|xs| - 1], right, Entries(xs[..|xs| - 1]), a, b)
           + (if x.person == a then Count(right, x.entry, b) else 0)
  {
    var init, x := xs[..|xs| - 1], xs[|xs| - 1];
    var old_es := Entries(init);
    ProductStep(xs, right, old_es, a, b);
    if x.entry !in old_es {
      var es := old_es + [x.entry];
      assert Entries(xs) == es;
      assert es[..|es| - 1] == old_es;
      CountNewEntry(xs, a);
      ProductLastEntry(xs, right, es, a, b);
    }
  }

  /** An entry that only the last row carries adds that row's contribution. */
  lemma ProductLastEntry(xs: seq<Mention>, right: seq<Mention>, es: seq<String>, a: String, b: String)
    requires |xs| > 0 && |es| > 0 && es[|es| - 1] == xs[|xs| - 1].entry
    requires Count(xs, es[|es| - 1], a) == if xs[|xs| - 1].person == a then 1 else 0
    ensures var x := xs[|xs| - 1];
      Product(xs, right, es, a, b)
        == Product(xs, right, es[..|es| - 1], a, b) + (if x.person == a then Count(right, x.entry, b) else 0)
  {
    var x := xs[|xs| - 1];
    var c, d := Count(xs, x.entry, a), Count(right, x.entry, b);
    assert c * d == if x.person == a then d else 0;
  }

  /** The matrix product counts pairs of rows sharing an entry: summing
      `C[e][a] · C[e][b]` over the distinct entries is the pair count. */
  lemma {:induction false} PairsFromIsProduct(xs: seq<Mention>, right: seq<Mention>, a: String, b: String)
    ensures PairsFrom(xs, right, a, b) == Product(xs, right, Entries(xs), a, b)
  {
    if |xs| > 0 {
      PairsFromIsProduct(xs[..|xs| - 1], right, a, b);
      ProductAppend(xs, right, a, b);
    }
  }

  /** `Cᵀ·C` over already filtered rows, with the diagonal set to zero
      (`np.fill_diagonal(adj.values, 0)`). */
  function MatrixOf(rows: seq<Mention>): (m: Matrix)
    ensures WellFormed(m) && Symmetric(m)
    ensures forall p :: p in m.labels <==> exists r :: r in rows && r.person == p
    ensures forall a :: a in m.labels ==> m.cell[(a, a)] == Num(0)
    ensures forall a, b :: a in m.labels && b in m.labels && a != b ==>
      m.cell[(a, b)] == Num(Product(rows, rows, Entries(rows), a, b))
  {
    var labels := People(rows);
    var es := Entries(rows);
    var w := (a: String, b: String) => if a == b then Num(0) else Num(Product(rows, rows, es, a, b));
    forall a, b | a in labels && b in labels ensures w(a, b) == w(b, a) {
      ProductSymmetric(rows, es, a, b);
    }
    TabulateSymmetric(labels, w);
    Tabulate(labels, w)
  }

  /** The matrix of the JQA pipeline: sentinel rows never count. */
  function CooccurrenceMatrix(ms: seq<Mention>): (m: Matrix)
    ensures WellFormed(m) && Symmetric(m)
    ensures forall p :: p in m.labels <==> p !in Sentinels && exists r :: r in ms && r.person == p
    ensures forall a :: a in m.labels ==> m.cell[(a, a)] == Num(0)
  {
    MatrixOf(DropSentinels(ms))
  }

  /** Every off-diagonal weight is the number of pairs of non-sentinel rows
      that share an entry and name the two people. */
  lemma MatrixCountsPairs(ms: seq<Mention>, a: String, b: String)
    requires a != b
    ensures a in CooccurrenceMatrix(ms).labels && b in CooccurrenceMatrix(ms).labels ==>
      CooccurrenceMatrix(ms).cell[(a, b)] == Num(PairCount(DropSentinels(ms), a, b))
  {
    PairsFromIsProduct(DropSentinels(ms), DropSentinels(ms), a, b);
  }

  /** `createAdjMatrix`: the melted matrix, keeping the rows whose two people
      differ and whose weight is above 15. */
  function CreateAdjMatrix(ms: seq<Mention>): (r: seq<Edge>)
    ensures forall e :: e in r ==> e.source != e.target && e.weight > MinWeight
    ensures forall e :: e in r ==> e.source !in Sentinels && e.target !in Sentinels
  {
    var m := CooccurrenceMatrix(ms);
    var r := Threshold(Melt(m, m.labels), MinWeight, {});
    assert forall e :: e in r ==> e.source in m.labels && e.target in m.labels by {
      forall e | e in r ensures e.source in m.labels && e.target in m.labels {
        assert Row(e.source, e.target, Num(e.weight)) in Melt(m, m.labels);
      }
    }
    r
  }

  /** An edge is output exactly for two distinct non-sentinel people whose
      pair count exceeds 15, carrying that count. */
  lemma EdgesExactly(ms: seq<Mention>, a: String, b: String, w: int)
    ensures Edge(a, b, w) in CreateAdjMatrix(ms) <==>
      && a != b && a !in Sentinels && b !in Sentinels
      && (exists r :: r in ms && r.person == a) && (exists r :: r in ms && r.person == b)
      && w == PairCount(DropSentinels(ms), a, b) && w > MinWeight
  {
    var m := CooccurrenceMatrix(ms);
    EdgesOfMatrix(m, m.labels, MinWeight, {}, a, b, w);
    if a in m.labels && b in m.labels && a != b {
      MatrixCountsPairs(ms, a, b);
    }
  }

  /** `(a, b, w)` is output exactly when `(b, a, w)` is. */
  lemma EdgesMirrored(ms: seq<Mention>, a: String, b: String, w: int)
    ensures Edge(a, b, w) in CreateAdjMatrix(ms) <==> Edge(b, a, w) in CreateAdjMatrix(ms)
  {
    var m := CooccurrenceMatrix(ms);
    EdgesOfMatrix(m, m.labels, MinWeight, {}, a, b, w);
    EdgesOfMatrix(m, m.labels, MinWeight, {}, b, a, w);
    if a in m.labels && b in m.labels {
      EdgesMirror(m, m.labels, MinWeight, {}, a, b, w);
    }
  }

  /** Dropping the sentinels removes a sentinel row wherever it stands. */
  lemma DropSentinelRow(xs: seq<Mention>, s: Mention, ys: seq<Mention>)
    requires s.person in Sentinels
    ensures DropSentinels(xs + [s] + ys) == DropSentinels(xs + ys)
  {
    FilterConcat(xs + [s], ys, NotSentinel);
    FilterConcat(xs, [s], NotSentinel);
    FilterConcat(xs, ys, NotSentinel);
    assert Filter([s], NotSentinel) == [] by {
      assert [s][..0] == [];
    }
    var fx := Filter(xs, NotSentinel);
    assert fx + [] == fx;
  }

  /** A row naming a sentinel, wherever it stands, changes nothing. */
  lemma SentinelRowIgnored(xs: seq<Mention>, s: Mention, ys: seq<Mention>)
    requires s.person in Sentinels
    ensures CreateAdjMatrix(xs + [s] + ys) == CreateAdjMatrix(xs + ys)
  {
    DropSentinelRow(xs, s, ys);
    assert CooccurrenceMatrix(xs + [s] + ys) == CooccurrenceMatrix(xs + ys);
  }
}
