/** Python's ordering of strings (lexicographic by code point) and the sorted,
    duplicate-free label lists pandas builds for the columns of a crosstab. */
module Order {
  import opened Text

  /** `a <= b` on Python strings. */
  predicate LessEq(a: String, b: String)
  {
    |a| == 0 || (|b| > 0 && (a[0] < b[0] || (a[0] == b[0] && LessEq(a[1..], b[1..]))))
  }

  predicate Less(a: String, b: String)
  {
    LessEq(a, b) && a != b
  }

  lemma {:induction false} LessEqTotal(a: String, b: String)
    ensures LessEq(a, b) || LessEq(b, a)
  {
    if |a| > 0 && |b| > 0 && a[0] == b[0] {
      LessEqTotal(a[1..], b[1..]);
    }
  }

  lemma {:induction false} LessEqAntisymmetric(a: String, b: String)
    requires LessEq(a, b) && LessEq(b, a)
    ensures a == b
  {
    if |a| > 0 && |b| > 0 {
      LessEqAntisymmetric(a[1..], b[1..]);
      assert a == [a[0]] + a[1..] && b == [b[0]] + b[1..];
    }
  }

  lemma {:induction false} LessEqTransitive(a: String, b: String, c: String)
    requires LessEq(a, b) && LessEq(b, c)
    ensures LessEq(a, c)
  {
    if |a| > 0 && a[0] == b[0] && b[0] == c[0] {
      LessEqTransitive(a[1..], b[1..], c[1..]);
    }
  }

  lemma LessTransitive(a: String, b: String, c: String)
    requires Less(a, b) && Less(b, c)
    ensures Less(a, c)
  {
    LessEqTransitive(a, b, c);
    if a == c {
      LessEqAntisymmetric(a, b);
    }
  }

  /** Strictly increasing, hence also free of duplicates. */
  predicate StrictlySorted(s: seq<String>)
  {
    forall i, j :: 0 <= i < j < |s| ==> Less(s[i], s[j])
  }

  /** Inserts `x` into its place in a sorted list unless it is already there. */
  function Insert(x: String, s: seq<String>): (r: seq<String>)
    requires StrictlySorted(s)
    ensures StrictlySorted(r)
    ensures forall y :: y in r <==> y in s || y == x
  {
    if |s| == 0 then [x]
    else if x == s[0] then s
    else if LessEq(x, s[0]) then
      assert forall k :: 1 <= k < |s| ==> Less(x, s[k]) by {
        forall k | 1 <= k < |s| ensures Less(x, s[k]) {
          LessTransitive(x, s[0], s[k]);
        }
      }
      [x] + s
    else
      LessEqTotal(x, s[0]);
      var t := Insert(x, s[1..]);
      assert forall k :: 0 <= k < |t| ==> Less(s[0], t[k]) by {
        forall k | 0 <= k < |t| ensures Less(s[0], t[k]) {
          if t[k] != x {
            assert t[k] in s[1..];
            var m :| 0 <= m < |s| - 1 && s[1..][m] == t[k];
            assert s[m + 1] == t[k];
          }
        }
      }
      [s[0]] + t
  }

  /** The distinct labels of `xs` in ascending order, as pandas orders the
      columns of a crosstab. */
  function Sorted(xs: seq<String>): (r: seq<String>)
    ensures StrictlySorted(r)
    ensures forall y :: y in r <==> y in xs
  {
    if |xs| == 0 then [] else Insert(xs[|xs| - 1], Sorted(xs[..|xs| - 1]))
  }
}
