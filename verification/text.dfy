/** Python string operations the pipeline relies on: `str.strip`, the
    regular-expression split on `,|;`, `str.lower`, `str.endswith`, and the
    code-point order pandas uses to sort column labels. */
module Text {

  type String = seq<char>

  /** The characters Python's `str.isspace` accepts. */
  predicate IsSpace(c: char)
  {
    || c == ' ' || c == '\t' || c == '\n' || c == '\r'
    || c == '\U{000B}' || c == '\U{000C}'
    || ('\U{001C}' <= c <= '\U{001F}')
    || c == '\U{0085}' || c == '\U{00A0}' || c == '\U{1680}'
    || ('\U{2000}' <= c <= '\U{200A}')
    || c == '\U{2028}' || c == '\U{2029}' || c == '\U{202F}'
    || c == '\U{205F}' || c == '\U{3000}'
  }

  predicate AllSpace(s: String)
  {
    forall k :: 0 <= k < |s| ==> IsSpace(s[k])
  }

  /** Neither end of `s` is whitespace. */
  predicate IsStripped(s: String)
  {
    |s| == 0 || (!IsSpace(s[0]) && !IsSpace(s[|s| - 1]))
  }

  function StripLeft(s: String): (r: String)
    ensures |r| <= |s| && r == s[|s| - |r|..]
    ensures AllSpace(s[..|s| - |r|])
    ensures |r| == 0 || !IsSpace(r[0])
  {
    if |s| > 0 && IsSpace(s[0]) then StripLeft(s[1..]) else s
  }

  function StripRight(s: String): (r: String)
    ensures |r| <= |s| && r == s[..|r|]
    ensures AllSpace(s[|r|..])
    ensures |r| == 0 || !IsSpace(r[|r| - 1])
  {
    if |s| > 0 && IsSpace(s[|s| - 1]) then StripRight(s[..|s| - 1]) else s
  }

  /** `str.strip()`. */
  function Strip(s: String): (r: String)
    ensures IsStripped(r) && |r| <= |s|
  {
    StripRight(StripLeft(s))
  }

  /** What `Strip` means: its result is a slice of `s` with no whitespace at
      either end, and everything cut off is whitespace. */
  lemma StripSlice(s: String) returns (i: nat, j: nat)
    ensures i <= j <= |s| && Strip(s) == s[i..j]
    ensures AllSpace(s[..i]) && AllSpace(s[j..])
  {
    var l := StripLeft(s);
    var r := StripRight(l);
    i := |s| - |l|;
    j := i + |r|;
    assert s[j..] == l[|r|..];
  }

  /** Stripping is idempotent. */
  lemma StripIdempotent(s: String)
    ensures Strip(Strip(s)) == Strip(s)
  {
    var t := Strip(s);
    assert StripLeft(t) == t;
  }

  /** A string strips to "" exactly when it is all whitespace. */
  lemma StripEmptyIffAllSpace(s: String)
    ensures Strip(s) == [] <==> AllSpace(s)
  {
    var t := Strip(s);
    var i, j := StripSlice(s);
    if t == [] {
      assert i == j;
      forall k | 0 <= k < |s| ensures IsSpace(s[k]) {
        if k < i {
          assert s[k] == s[..i][k];
        } else {
          assert s[k] == s[j..][k - j];
        }
      }
    } else {
      assert s[i] == t[0] && !IsSpace(t[0]);
      assert !IsSpace(s[i]);
    }
  }

  /** Stripping never introduces a delimiter. */
  lemma StripNoDelim(s: String)
    requires NoDelim(s)
    ensures NoDelim(Strip(s))
  {
    var i, j := StripSlice(s);
    forall k | 0 <= k < j - i ensures !IsDelim(Strip(s)[k]) {
      assert Strip(s)[k] == s[i + k];
    }
  }

  // ---------------------------------------------------------------------
  // Splitting on the regular expression `,|;`

  predicate IsDelim(c: char)
  {
    c == ',' || c == ';'
  }

  predicate NoDelim(s: String)
  {
    forall k :: 0 <= k < |s| ==> !IsDelim(s[k])
  }

  /** The delimiter characters of `s`, in order. */
  function Delims(s: String): (d: String)
    ensures forall k :: 0 <= k < |d| ==> IsDelim(d[k])
  {
    if |s| == 0 then []
    else if IsDelim(s[0]) then [s[0]] + Delims(s[1..])
    else Delims(s[1..])
  }

  /** Re-inserts the separators `d` between the pieces `p`. */
  function Unsplit(p: seq<String>, d: String): String
    requires |p| == |d| + 1
    decreases |d|
  {
    if |d| == 0 then p[0] else p[0] + [d[0]] + Unsplit(p[1..], d[1..])
  }

  /** `re.split(r',|;', s)`: the pieces between delimiters, one more piece
      than there are delimiters, none of them holding a delimiter. */
  function Split(s: String): (r: seq<String>)
    ensures |r| == |Delims(s)| + 1
    ensures forall k :: 0 <= k < |r| ==> NoDelim(r[k])
  {
    if |s| == 0 then [[]]
    else
      var rest := Split(s[1..]);
      if IsDelim(s[0]) then [[]] + rest
      else [[s[0]] + rest[0]] + rest[1..]
  }

  lemma UnsplitConsHead(c: char, p: seq<String>, d: String)
    requires |p| == |d| + 1
    ensures Unsplit([[c] + p[0]] + p[1..], d) == [c] + Unsplit(p, d)
  {
    var q := [[c] + p[0]] + p[1..];
    if |d| > 0 {
      assert q[1..] == p[1..];
    }
  }

  /** Splitting loses nothing: joining the pieces with the original
      delimiters gives back the input. */
  lemma {:induction false} SplitRoundTrip(s: String)
    ensures Unsplit(Split(s), Delims(s)) == s
  {
    if |s| > 0 {
      var rest := Split(s[1..]);
      SplitRoundTrip(s[1..]);
      if IsDelim(s[0]) {
        assert Split(s)[1..] == rest;
        assert Unsplit(Split(s), Delims(s)) == [] + [s[0]] + s[1..];
      } else {
        UnsplitConsHead(s[0], rest, Delims(s[1..]));
      }
    }
  }

  /** A string without delimiters splits into itself alone. */
  lemma {:induction false} SplitNoDelim(s: String)
    requires NoDelim(s)
    ensures Split(s) == [s]
  {
    if |s| > 0 {
      assert NoDelim(s[1..]) by {
        forall k | 0 <= k < |s| - 1 ensures !IsDelim(s[1..][k]) {
          assert s[1..][k] == s[k + 1];
        }
      }
      SplitNoDelim(s[1..]);
      assert [s[0]] + s[1..] == s;
    }
  }

  // ---------------------------------------------------------------------
  // Lower-casing

  predicate IsUpper(c: char)
  {
    'A' <= c <= 'Z'
  }

  function LowerChar(c: char): char
  {
    if IsUpper(c) then (c as int + 32) as char else c
  }

  /** `str.lower()` on the ASCII letters: same length, no upper-case letter
      remains, and every other character is kept. */
  function Lower(s: String): (r: String)
    ensures |r| == |s|
    ensures forall k :: 0 <= k < |r| ==> !IsUpper(r[k])
    ensures forall k :: 0 <= k < |r| ==> !IsUpper(s[k]) ==> r[k] == s[k]
    ensures forall k :: 0 <= k < |r| ==> IsUpper(s[k]) ==> r[k] as int == s[k] as int + 32
  {
    seq(|s|, k requires 0 <= k < |s| => LowerChar(s[k]))
  }

  /** Lower-casing is idempotent. */
  lemma LowerIdempotent(s: String)
    ensures Lower(Lower(s)) == Lower(s)
  {
  }

  /** Lower-cases every piece, keeping their number and order. */
  function LowerEach(p: seq<String>): (r: seq<String>)
    ensures |r| == |p|
    ensures forall k :: 0 <= k < |r| ==> r[k] == Lower(p[k])
  {
    if |p| == 0 then [] else [Lower(p[0])] + LowerEach(p[1..])
  }

  lemma LowerCons(c: char, t: String)
    ensures Lower([c] + t) == [LowerChar(c)] + Lower(t)
  {
  }

  /** Lower-casing keeps the delimiters where they are, so lower-casing before
      or after splitting gives the same pieces. */
  lemma {:induction false} SplitLower(s: String)
    ensures Split(Lower(s)) == LowerEach(Split(s))
  {
    if |s| > 0 {
      var rest := Split(s[1..]);
      SplitLower(s[1..]);
      assert Lower(s) == [LowerChar(s[0])] + Lower(s[1..]) by {
        LowerCons(s[0], s[1..]);
        assert s == [s[0]] + s[1..];
      }
      assert Lower(s)[1..] == Lower(s[1..]);
      if IsDelim(s[0]) {
        assert Split(s) == [[]] + rest;
        assert LowerEach(Split(s))[1..] == LowerEach(rest);
      } else {
        assert Split(s) == [[s[0]] + rest[0]] + rest[1..];
        LowerCons(s[0], rest[0]);
        assert LowerEach(Split(s))[1..] == LowerEach(rest)[1..];
      }
    }
  }

  function EndsWith(s: String, suffix: String): bool
  {
    |suffix| <= |s| && s[|s| - |suffix|..] == suffix
  }
}
