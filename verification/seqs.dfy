/** Generic sequence helpers: first-seen deduplication, counting and sums. */
module Seqs {

  /** No element occurs twice. */
  predicate Distinct<T(==)>(xs: seq<T>)
  {
    forall i, j :: 0 <= i < j < |xs| ==> xs[i] != xs[j]
  }

  /** Index of the first occurrence of `x` in `xs`. */
  function FirstIndex<T(==)>(xs: seq<T>, x: T): (i: nat)
    requires x in xs
    ensures i < |xs| && xs[i] == x
    ensures forall k :: 0 <= k < i ==> xs[k] != x
  {
    if xs[0] == x then 0 else 1 + FirstIndex(xs[1..], x)
  }

  /** Keeps the first occurrence of every element, in order of first appearance
      (what `dict.fromkeys` and networkx node insertion do). */
  function Dedup<T(==,!new)>(xs: seq<T>): (r: seq<T>)
    ensures Distinct(r)
    ensures forall x :: x in r <==> x in xs
  {
    if |xs| == 0 then []
    else
      var d := Dedup(xs[..|xs| - 1]);
      assert xs == xs[..|xs| - 1] + [xs[|xs| - 1]];
      if xs[|xs| - 1] in d then d else d + [xs[|xs| - 1]]
  }

  /** Appending an element adds it to the deduplication unless present. */
  lemma DedupSnoc<T(!new)>(xs: seq<T>, x: T)
    ensures Dedup(xs + [x]) == if x in xs then Dedup(xs) else Dedup(xs) + [x]
  {
    assert (xs + [x])[..|xs|] == xs;
  }

  /** `Dedup` lists the elements in the order of their first occurrence. */
  lemma {:induction false} DedupFirstSeen<T(!new)>(xs: seq<T>)
    ensures forall i, j :: 0 <= i < j < |Dedup(xs)| ==> FirstIndex(xs, Dedup(xs)[i]) < FirstIndex(xs, Dedup(xs)[j])
  {
    if |xs| > 0 {
      var init := xs[..|xs| - 1];
      var last := xs[|xs| - 1];
      var d := Dedup(init);
      DedupFirstSeen(init);
      forall x | x in init ensures FirstIndex(xs, x) == FirstIndex(init, x) {
        FirstIndexPrefix(init, xs, x);
      }
      if last !in d {
        assert last !in init;
        assert FirstIndex(xs, last) == |xs| - 1;
      }
    }
  }

  lemma FirstIndexPrefix<T>(init: seq<T>, xs: seq<T>, x: T)
    requires init <= xs && x in init
    ensures x in xs && FirstIndex(xs, x) == FirstIndex(init, x)
  {
    if init[0] != x {
      FirstIndexPrefix(init[1..], xs[1..], x);
    }
  }

  /** Number of positions of `xs` satisfying `p`. */
  function CountIf<T>(xs: seq<T>, p: T -> bool): (n: nat)
    ensures n <= |xs|
  {
    if |xs| == 0 then 0
    else CountIf(xs[..|xs| - 1], p) + (if p(xs[|xs| - 1]) then 1 else 0)
  }

  /** Sum of a sequence of integers. */
  function Sum(xs: seq<int>): int
  {
    if |xs| == 0 then 0 else Sum(xs[..|xs| - 1]) + xs[|xs| - 1]
  }

  /** How often `y` occurs in the blocks `f(x)`, summed over every `x` of `xs`. */
  function BlockCount<A, B(==)>(xs: seq<A>, f: A -> seq<B>, y: B): nat
  {
    if |xs| == 0 then 0
    else BlockCount(xs[..|xs| - 1], f, y) + multiset(f(xs[|xs| - 1]))[y]
  }

  /** How many positions of `xs` satisfy `p` and have the image `y` under `g`. */
  function ImageCount<A, B(==)>(xs: seq<A>, p: A -> bool, g: A -> B, y: B): nat
  {
    if |xs| == 0 then 0
    else ImageCount(xs[..|xs| - 1], p, g, y) + (if p(xs[|xs| - 1]) && g(xs[|xs| - 1]) == y then 1 else 0)
  }

  /** Concatenates `f(x)` for every `x` of `xs`, in order (the explode step of
      a table, one block of output rows per input row). */
  function FlatMap<A, B(==,!new)>(xs: seq<A>, f: A -> seq<B>): (r: seq<B>)
    ensures forall y :: y in r <==> exists i :: 0 <= i < |xs| && y in f(xs[i])
    ensures forall y :: multiset(r)[y] == BlockCount(xs, f, y)
  {
    if |xs| == 0 then []
    else
      var n := |xs| - 1;
      var init := FlatMap(xs[..n], f);
      assert forall i :: 0 <= i < n ==> xs[..n][i] == xs[i];
      assert forall y :: y in f(xs[n]) ==> exists i :: 0 <= i < |xs| && y in f(xs[i]) by {
        forall y | y in f(xs[n]) ensures exists i :: 0 <= i < |xs| && y in f(xs[i]) {
          assert 0 <= n < |xs| && y in f(xs[n]);
        }
      }
      init + f(xs[n])
  }

  /** `g(x)` for every `x` of `xs` that satisfies `p`, in order. */
  function FilterMap<A, B(==,!new)>(xs: seq<A>, p: A -> bool, g: A -> B): (r: seq<B>)
    ensures |r| == CountIf(xs, p)
    ensures forall y :: y in r <==> exists k :: 0 <= k < |xs| && p(xs[k]) && y == g(xs[k])
    ensures forall y :: multiset(r)[y] == ImageCount(xs, p, g, y)
  {
    if |xs| == 0 then []
    else
      var n := |xs| - 1;
      var init := FilterMap(xs[..n], p, g);
      assert forall k :: 0 <= k < n ==> xs[..n][k] == xs[k];
      if p(xs[n]) then
        assert 0 <= n < |xs| && p(xs[n]) && g(xs[n]) == g(xs[n]);
        init + [g(xs[n])]
      else init
  }

  /** Exploding a concatenation explodes each part and keeps their order. */
  lemma {:induction false} FlatMapConcat<A, B(!new)>(xs: seq<A>, ys: seq<A>, f: A -> seq<B>)
    ensures FlatMap(xs + ys, f) == FlatMap(xs, f) + FlatMap(ys, f)
  {
    if |ys| == 0 {
      assert xs + ys == xs;
    } else {
      var n := |ys| - 1;
      var zs := xs + ys;
      assert zs[..|zs| - 1] == xs + ys[..n];
      assert zs[|zs| - 1] == ys[n];
      FlatMapConcat(xs, ys[..n], f);
      var a, b, c := FlatMap(xs, f), FlatMap(ys[..n], f), f(ys[n]);
      assert a + (b + c) == (a + b) + c;
    }
  }

  /** Filtering and mapping a concatenation treats each part in turn. */
  lemma {:induction false} FilterMapConcat<A, B(!new)>(xs: seq<A>, ys: seq<A>, p: A -> bool, g: A -> B)
    ensures FilterMap(xs + ys, p, g) == FilterMap(xs, p, g) + FilterMap(ys, p, g)
  {
    if |ys| == 0 {
      assert xs + ys == xs;
    } else {
      var n := |ys| - 1;
      var zs := xs + ys;
      assert zs[..|zs| - 1] == xs + ys[..n];
      assert zs[|zs| - 1] == ys[n];
      FilterMapConcat(xs, ys[..n], p, g);
      var a, b := FilterMap(xs, p, g), FilterMap(ys[..n], p, g);
      var c := if p(ys[n]) then [g(ys[n])] else [];
      assert a + (b + c) == (a + b) + c;
    }
  }

  /** The elements of `xs` satisfying `p`, in order (`DataFrame.query`). */
  function Filter<T(!new)>(xs: seq<T>, p: T -> bool): (r: seq<T>)
    ensures |r| <= |xs|
    ensures forall x :: x in r <==> x in xs && p(x)
  {
    if |xs| == 0 then []
    else
      var n := |xs| - 1;
      assert xs == xs[..n] + [xs[n]];
      Filter(xs[..n], p) + (if p(xs[n]) then [xs[n]] else [])
  }

  /** Filtering distributes over concatenation. */
  lemma {:induction false} FilterConcat<T(!new)>(xs: seq<T>, ys: seq<T>, p: T -> bool)
    ensures Filter(xs + ys, p) == Filter(xs, p) + Filter(ys, p)
  {
    if |ys| == 0 {
      assert xs + ys == xs;
    } else {
      var n := |ys| - 1;
      var zs := xs + ys;
      var tail := if p(ys[n]) then [ys[n]] else [];
      assert zs[..|zs| - 1] == xs + ys[..n];
      assert zs[|zs| - 1] == ys[n];
      assert Filter(zs, p) == Filter(xs + ys[..n], p) + tail;
      assert Filter(ys, p) == Filter(ys[..n], p) + tail;
      FilterConcat(xs, ys[..n], p);
      var fx, fy := Filter(xs, p), Filter(ys[..n], p);
      assert fx + (fy + tail) == (fx + fy) + tail;
    }
  }

  /** Filtering keeps a duplicate-free sequence duplicate-free. */
  lemma {:induction false} FilterDistinct<T(!new)>(xs: seq<T>, p: T -> bool)
    requires Distinct(xs)
    ensures Distinct(Filter(xs, p))
  {
    if |xs| > 0 {
      var n := |xs| - 1;
      assert Distinct(xs[..n]);
      FilterDistinct(xs[..n], p);
      assert xs[n] !in xs[..n];
    }
  }

  /** Counting distributes over concatenation. */
  lemma {:induction false} CountIfConcat<T>(xs: seq<T>, ys: seq<T>, p: T -> bool)
    ensures CountIf(xs + ys, p) == CountIf(xs, p) + CountIf(ys, p)
  {
    if |ys| == 0 {
      assert xs + ys == xs;
    } else {
      var n := |ys| - 1;
      var zs := xs + ys;
      assert zs[..|zs| - 1] == xs + ys[..n];
      assert zs[|zs| - 1] == ys[n];
      CountIfConcat(xs, ys[..n], p);
    }
  }

  /** Concatenating two duplicate-free, disjoint sequences. */
  lemma DistinctConcat<T>(xs: seq<T>, ys: seq<T>)
    requires Distinct(xs) && Distinct(ys)
    requires forall x :: x in xs ==> x !in ys
    ensures Distinct(xs + ys)
  {
    forall i, j | 0 <= i < j < |xs + ys| ensures (xs + ys)[i] != (xs + ys)[j] {
      if j < |xs| {
        assert (xs + ys)[i] == xs[i] && (xs + ys)[j] == xs[j];
      } else if i >= |xs| {
        assert (xs + ys)[i] == ys[i - |xs|] && (xs + ys)[j] == ys[j - |xs|];
      } else {
        assert (xs + ys)[i] == xs[i] && (xs + ys)[j] == ys[j - |xs|];
        assert xs[i] in xs && ys[j - |xs|] in ys;
      }
    }
  }
}
