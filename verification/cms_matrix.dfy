/** `createAdjMatrix` of the correspondence variant: the exploded references
    and the source and target columns are counted per file, merged column by
    column into the reference table, multiplied out as `Cᵀ·C` (the diagonal is
    kept), melted, and filtered with weight above 3 and without the `u` and
    empty endpoints. */
module CmsMatrix {
  import opened Wrappers
  import opened Text
  import opened Seqs
  import opened Order
  import opened CoMatrix
  import opened CmsFrame

  /** Endpoints removed from the edge list. */
  const Excluded: set<String> := {"u", ""}

  /** Rows need a weight strictly above this to become edges. */
  const MinWeight: int := 3

  /** One row of the exploded reference table. */
  datatype Ref = Ref(file: String, person: String)

  /** The reference rows of one letter, one per list element; a NaN list has
      none, because `pd.crosstab` drops the NaN row `explode` leaves. */
  function RefsOf(l: Prepared): (r: seq<Ref>)
    ensures l.references.None? ==> r == []
    ensures l.references.Some? ==> |r| == |l.references.value|
    ensures forall k :: 0 <= k < |r| ==> r[k] == Ref(l.file, l.references.value[k])
  {
    match l.references
    case None => []
    case Some(ps) => seq(|ps|, k requires 0 <= k < |ps| => Ref(l.file, ps[k]))
  }

  /** `df.explode('references')` without its NaN rows. */
  function Explode(ls: seq<Prepared>): (r: seq<Ref>)
    ensures forall x :: x in r <==> exists i :: 0 <= i < |ls| && x in RefsOf(ls[i])
  {
    FlatMap(ls, RefsOf)
  }

  function ListLength(l: Prepared): nat
  {
    if l.references.Some? then |l.references.value| else 0
  }

  /** Exploding yields one row per list element. */
  lemma {:induction false} ExplodeLength(ls: seq<Prepared>)
    ensures |Explode(ls)| == Sum(seq(|ls|, i requires 0 <= i < |ls| => ListLength(ls[i]) as int))
  {
    if |ls| > 0 {
      var n := |ls| - 1;
      ExplodeLength(ls[..n]);
      var lens := seq(|ls|, i requires 0 <= i < |ls| => ListLength(ls[i]) as int);
      assert lens[..n] == seq(n, i requires 0 <= i < n => ListLength(ls[..n][i]) as int);
      assert Explode(ls) == Explode(ls[..n]) + RefsOf(ls[n]);
    }
  }

  predicate HasRole(r: Ref, f: String, p: String)
  {
    r.file == f && r.person == p
  }

  /** Cell `(f, p)` of `pd.crosstab(refs['file'], refs['references'])`. */
  function RefCount(refs: seq<Ref>, f: String, p: String): nat
  {
    CountIf(refs, r => HasRole(r, f, p))
  }

  /** Cell `(f, p)` of `pd.crosstab(df['file'], df['source'])`. */
  function SourceCount(ls: seq<Prepared>, f: String, p: String): nat
  {
    CountIf(ls, (l: Prepared) => l.file == f && l.source == Some(p))
  }

  /** Cell `(f, p)` of `pd.crosstab(df['file'], df['target'])`. */
  function TargetCount(ls: seq<Prepared>, f: String, p: String): nat
  {
    CountIf(ls, (l: Prepared) => l.file == f && l.target == Some(p))
  }

  /** The merged per-file count of person `p`: references plus sources plus
      targets (meaningful for the files of the reference table). */
  function Combined(ls: seq<Prepared>, f: String, p: String): nat
  {
    RefCount(Explode(ls), f, p) + SourceCount(ls, f, p) + TargetCount(ls, f, p)
  }

  /** The letter contributes at least one reference row. */
  predicate HasRefs(l: Prepared)
  {
    l.references.Some? && |l.references.value| > 0
  }

  /** The files of the reference table, each once: the files with at least
      one reference. Only these rows survive the merge. */
  function RefFiles(ls: seq<Prepared>): (fs: seq<String>)
    ensures Distinct(fs)
    ensures forall f :: f in fs <==> exists l :: l in ls && l.file == f && HasRefs(l)
  {
    var refs := Explode(ls);
    var all := seq(|refs|, k requires 0 <= k < |refs| => refs[k].file);
    assert forall f :: f in all <==> exists l :: l in ls && l.file == f && HasRefs(l) by {
      forall f | f in all ensures exists l :: l in ls && l.file == f && HasRefs(l) {
        var k :| 0 <= k < |all| && all[k] == f;
        assert refs[k] in refs;
        var i :| 0 <= i < |ls| && refs[k] in RefsOf(ls[i]);
        assert ls[i] in ls;
      }
      forall f | exists l :: l in ls && l.file == f && HasRefs(l) ensures f in all {
        var l :| l in ls && l.file == f && HasRefs(l);
        var i :| 0 <= i < |ls| && ls[i] == l;
        assert RefsOf(ls[i])[0] in RefsOf(ls[i]);
        assert RefsOf(l)[0] in refs;
        var k :| 0 <= k < |refs| && refs[k] == RefsOf(l)[0];
        assert all[k] == f;
      }
    }
    Dedup(all)
  }

  /** The people named in the reference lists, sorted, each once. */
  function RefPeople(ls: seq<Prepared>): (ps: seq<String>)
    ensures StrictlySorted(ps)
    ensures forall p :: p in ps <==> exists r :: r in Explode(ls) && r.person == p
  {
    var refs := Explode(ls);
    var all := seq(|refs|, k requires 0 <= k < |refs| => refs[k].person);
    assert forall p :: p in all <==> exists r :: r in refs && r.person == p by {
      forall p | p in all ensures exists r :: r in refs && r.person == p {
        var k :| 0 <= k < |all| && all[k] == p;
        assert refs[k] in refs;
      }
      forall p | exists r :: r in refs && r.person == p ensures p in all {
        var r :| r in refs && r.person == p;
        var k :| 0 <= k < |refs| && refs[k] == r;
        assert all[k] == p;
      }
    }
    Sorted(all)
  }

  /** The non-NaN values of a column, sorted, each once. */
  function ColumnPeople(cells: seq<Cell>): (ps: seq<String>)
    ensures StrictlySorted(ps)
    ensures forall p :: p in ps <==> Some(p) in cells
  {
    var present := Filter(cells, (c: Cell) => c.Some?);
    assert forall k :: 0 <= k < |present| ==> present[k].Some? by {
      forall k | 0 <= k < |present| ensures present[k].Some? {
        assert present[k] in present;
      }
    }
    var all := seq(|present|, k requires 0 <= k < |present| => present[k].value);
    assert forall p :: p in all <==> Some(p) in cells by {
      forall p | p in all ensures Some(p) in cells {
        var k :| 0 <= k < |all| && all[k] == p;
        assert present[k] in present;
      }
      forall p | Some(p) in cells ensures p in all {
        var k :| 0 <= k < |present| && present[k] == Some(p);
        assert all[k] == p;
      }
    }
    Sorted(all)
  }

  function Sources(ls: seq<Prepared>): (cs: seq<Cell>)
    ensures forall c :: c in cs <==> exists l :: l in ls && l.source == c
  {
    var cs := seq(|ls|, k requires 0 <= k < |ls| => ls[k].source);
    assert forall c :: c in cs ==> exists l :: l in ls && l.source == c by {
      forall c | c in cs ensures exists l :: l in ls && l.source == c {
        var k :| 0 <= k < |cs| && cs[k] == c;
        assert ls[k] in ls;
      }
    }
    assert forall l :: l in ls ==> l.source in cs by {
      forall l | l in ls ensures l.source in cs {
        var k :| 0 <= k < |ls| && ls[k] == l;
        assert cs[k] == l.source;
      }
    }
    cs
  }

  function Targets(ls: seq<Prepared>): (cs: seq<Cell>)
    ensures forall c :: c in cs <==> exists l :: l in ls && l.target == c
  {
    var cs := seq(|ls|, k requires 0 <= k < |ls| => ls[k].target);
    assert forall c :: c in cs ==> exists l :: l in ls && l.target == c by {
      forall c | c in cs ensures exists l :: l in ls && l.target == c {
        var k :| 0 <= k < |cs| && cs[k] == c;
        assert ls[k] in ls;
      }
    }
    assert forall l :: l in ls ==> l.target in cs by {
      forall l | l in ls ensures l.target in cs {
        var k :| 0 <= k < |ls| && ls[k] == l;
        assert cs[k] == l.target;
      }
    }
    cs
  }

  /** The merged column order: the reference columns, then the source
      columns not yet present, then the target columns not yet present. */
  function Labels(ls: seq<Prepared>): (labels: seq<String>)
    ensures Distinct(labels)
    ensures forall p :: p in labels <==>
      p in RefPeople(ls) || Some(p) in Sources(ls) || Some(p) in Targets(ls)
  {
    var r := RefPeople(ls);
    var s := ColumnPeople(Sources(ls));
    var t := ColumnPeople(Targets(ls));
    var s' := Filter(s, p => p !in r);
    var t' := Filter(t, p => p !in r && p !in s);
    FilterDistinct(s, p => p !in r);
    FilterDistinct(t, p => p !in r && p !in s);
    DistinctConcat(r, s');
    DistinctConcat(r + s', t');
    r + s' + t'
  }

  /** Some file of the reference table has no non-NaN source. Aligning the
      source crosstab onto the reference table's files then leaves NaN in
      every source column at that file. */
  predicate MissingSource(ls: seq<Prepared>)
  {
    exists f :: f in RefFiles(ls) && !(exists l :: l in ls && l.file == f && l.source.Some?)
  }

  /** The same for the target crosstab. */
  predicate MissingTarget(ls: seq<Prepared>)
  {
    exists f :: f in RefFiles(ls) && !(exists l :: l in ls && l.file == f && l.target.Some?)
  }

  /** Person `p`'s merged column holds a NaN, which `Cᵀ·C` spreads over the
      whole row and column of `p`. */
  predicate Poisoned(ls: seq<Prepared>, p: String)
  {
    || (MissingSource(ls) && Some(p) in Sources(ls))
    || (MissingTarget(ls) && Some(p) in Targets(ls))
  }

  /** Entry `(a, b)` of `Cᵀ·C` over the files `fs`. */
  function FileProduct(ls: seq<Prepared>, fs: seq<String>, a: String, b: String): int
  {
    if |fs| == 0 then 0
    else
      var f := fs[|fs| - 1];
      FileProduct(ls, fs[..|fs| - 1], a, b) + Combined(ls, f, a) * Combined(ls, f, b)
  }

  lemma {:induction false} FileProductSymmetric(ls: seq<Prepared>, fs: seq<String>, a: String, b: String)
    ensures FileProduct(ls, fs, a, b) == FileProduct(ls, fs, b, a)
  {
    if |fs| > 0 {
      FileProductSymmetric(ls, fs[..|fs| - 1], a, b);
    }
  }

  /** A diagonal entry is a sum of squares: positive as soon as the person
      occurs in one of the files. */
  lemma {:induction false} FileProductDiagonal(ls: seq<Prepared>, fs: seq<String>, a: String, f: String)
    requires f in fs && Combined(ls, f, a) > 0
    ensures FileProduct(ls, fs, a, a) > 0
  {
    var n := |fs| - 1;
    if fs[n] != f {
      assert f in fs[..n] by {
        assert fs == fs[..n] + [fs[n]];
      }
      FileProductDiagonal(ls, fs[..n], a, f);
    } else {
      FileProductNonNegative(ls, fs[..n], a);
    }
  }

  lemma {:induction false} FileProductNonNegative(ls: seq<Prepared>, fs: seq<String>, a: String)
    ensures FileProduct(ls, fs, a, a) >= 0
  {
    if |fs| > 0 {
      FileProductNonNegative(ls, fs[..|fs| - 1], a);
    }
  }

  /** The value of cell `(a, b)` after the merge and the product. */
  function Weight(ls: seq<Prepared>, a: String, b: String): Value
  {
    if Poisoned(ls, a) || Poisoned(ls, b) then NaN
    else Num(FileProduct(ls, RefFiles(ls), a, b))
  }

  /** `refs.T.dot(refs)`, the diagonal left in place. */
  function MatrixOf(ls: seq<Prepared>): (m: Matrix)
    ensures WellFormed(m) && Symmetric(m)
    ensures m.labels == Labels(ls)
    ensures forall q :: q in m.cell ==> m.cell[q] == Weight(ls, q.0, q.1)
  {
    var w := (a: String, b: String) => Weight(ls, a, b);
    forall a, b | a in Labels(ls) && b in Labels(ls) ensures w(a, b) == w(b, a) {
      FileProductSymmetric(ls, RefFiles(ls), a, b);
    }
    TabulateSymmetric(Labels(ls), w);
    Tabulate(Labels(ls), w)
  }

  /** Every label but `source` is a value column of the melt: the column
      `source` is overwritten by `refs['source'] = refs.index` and used as
      the id column. */
  function ValueColumns(labels: seq<String>): (ts: seq<String>)
    ensures forall t :: t in ts <==> t in labels && t != "source"
  {
    Filter(labels, (t: String) => t != "source")
  }

  /** `createAdjMatrix` of the correspondence variant. */
  function CreateAdjMatrix(ls: seq<Prepared>): (r: seq<Edge>)
    ensures forall e :: e in r ==> e.source != e.target && e.weight > MinWeight
    ensures forall e :: e in r ==> e.source !in Excluded && e.target !in Excluded
    ensures forall e :: e in r ==> e.target != "source"
  {
    var m := MatrixOf(ls);
    var r := Threshold(Melt(m, ValueColumns(m.labels)), MinWeight, Excluded);
    assert forall e :: e in r ==> e.target != "source" by {
      forall e | e in r ensures e.target != "source" {
        assert Row(e.source, e.target, Num(e.weight)) in Melt(m, ValueColumns(m.labels));
      }
    }
    r
  }

  /** An edge is output exactly for two distinct people, neither `u` nor
      empty, the target not `source`, whose weight is a number above 3. */
  lemma EdgesExactly(ls: seq<Prepared>, a: String, b: String, w: int)
    ensures Edge(a, b, w) in CreateAdjMatrix(ls) <==>
      && a in Labels(ls) && b in Labels(ls) && b != "source"
      && a != b && a !in Excluded && b !in Excluded
      && Weight(ls, a, b) == Num(w) && w > MinWeight
  {
    var m := MatrixOf(ls);
    EdgesOfMatrix(m, ValueColumns(m.labels), MinWeight, Excluded, a, b, w);
  }

  /** Without a person literally named `source`, `(a, b, w)` is output
      exactly when `(b, a, w)` is. */
  lemma EdgesMirrored(ls: seq<Prepared>, a: String, b: String, w: int)
    ensures "source" !in Labels(ls) ==>
      (Edge(a, b, w) in CreateAdjMatrix(ls) <==> Edge(b, a, w) in CreateAdjMatrix(ls))
  {
    var m := MatrixOf(ls);
    if "source" !in m.labels {
      var ts := ValueColumns(m.labels);
      EdgesOfMatrix(m, ts, MinWeight, Excluded, a, b, w);
      EdgesOfMatrix(m, ts, MinWeight, Excluded, b, a, w);
      if a in m.labels && b in m.labels {
        EdgesMirror(m, ts, MinWeight, Excluded, a, b, w);
      }
    }
  }

  /** The diagonal is not zeroed: a person without NaN who occurs in a file
      of the reference table has a positive diagonal entry. */
  lemma DiagonalKept(ls: seq<Prepared>, a: String, f: String)
    requires Combined(ls, f, a) > 0
    ensures a in Labels(ls) && !Poisoned(ls, a) && f in RefFiles(ls) ==>
      MatrixOf(ls).cell[(a, a)].Num? && MatrixOf(ls).cell[(a, a)].n > 0
  {
    if f in RefFiles(ls) {
      FileProductDiagonal(ls, RefFiles(ls), a, f);
    }
  }

  /** How often `p` is named in letter `l` of file `f`: once per list
      element equal to `p`, plus once as sender and once as recipient. */
  function Occurrences(l: Prepared, f: String, p: String): nat
  {
    if l.file != f then 0
    else
      var listed := if l.references.Some? then CountIf(l.references.value, (x: String) => x == p) else 0;
      listed + (if l.source == Some(p) then 1 else 0) + (if l.target == Some(p) then 1 else 0)
  }

  /** Reference definition of a crosstab cell: the occurrences summed
      letter by letter. */
  function LetterSum(ls: seq<Prepared>, f: String, p: String): nat
  {
    if |ls| == 0 then 0 else LetterSum(ls[..|ls| - 1], f, p) + Occurrences(ls[|ls| - 1], f, p)
  }

  lemma {:induction false} ListCount(file: String, ps: seq<String>, f: String, p: String)
    ensures RefCount(seq(|ps|, k requires 0 <= k < |ps| => Ref(file, ps[k])), f, p)
      == if file == f then CountIf(ps, (x: String) => x == p) else 0
  {
    if |ps| > 0 {
      var n := |ps| - 1;
      var rs := seq(|ps|, k requires 0 <= k < |ps| => Ref(file, ps[k]));
      assert rs[..n] == seq(n, k requires 0 <= k < n => Ref(file, ps[..n][k]));
      ListCount(file, ps[..n], f, p);
    }
  }

  /** The merged crosstab cell counts exactly the occurrences of `p` in
      the letters of file `f`. */
  lemma {:induction false} CombinedPerLetter(ls: seq<Prepared>, f: String, p: String)
    ensures Combined(ls, f, p) == LetterSum(ls, f, p)
  {
    if |ls| > 0 {
      var n := |ls| - 1;
      var l := ls[n];
      CombinedPerLetter(ls[..n], f, p);
      assert Explode(ls) == Explode(ls[..n]) + RefsOf(l);
      CountIfConcat(Explode(ls[..n]), RefsOf(l), r => HasRole(r, f, p));
      if l.references.Some? {
        ListCount(l.file, l.references.value, f, p);
      }
    }
  }
}
