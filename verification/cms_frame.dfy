/** `createDataframe` of the correspondence variant: `source`, `target` and
    `references` are lower-cased and `references` is split on `,` or `;`.
    Unlike the diary variant nothing is stripped and nothing is dropped. */
module CmsFrame {
  import opened Wrappers
  import opened Text

  /** A table cell; `None` is NaN. */
  type Cell = Option<String>

  /** One letter as the parser tabulates it. */
  datatype Letter = Letter(file: String, source: Cell, target: Cell, references: Cell)

  /** One letter after `createDataframe`: `references` now holds a list. */
  datatype Prepared = Prepared(file: String, source: Cell, target: Cell, references: Option<seq<String>>)

  /** `Series.str.lower()`: NaN stays NaN. */
  function LowerCell(c: Cell): (r: Cell)
    ensures r.Some? <==> c.Some?
    ensures r.Some? ==> |r.value| == |c.value| && forall k :: 0 <= k < |r.value| ==> !IsUpper(r.value[k])
  {
    match c
    case None => None
    case Some(s) => Some(Lower(s))
  }

  predicate NoUpper(s: String)
  {
    forall k :: 0 <= k < |s| ==> !IsUpper(s[k])
  }

  /** Every piece of a lower-cased string is lower-case. */
  lemma SplitOfLowerIsLower(s: String)
    ensures forall k :: 0 <= k < |Split(Lower(s))| ==> NoUpper(Split(Lower(s))[k])
  {
    SplitLower(s);
  }

  /** One letter through `createDataframe`: lower-casing comes first, the
      split loses nothing but the delimiters, and no piece holds a delimiter
      or an upper-case letter. */
  function Prepare(l: Letter): (p: Prepared)
    ensures p.file == l.file && p.source == LowerCell(l.source) && p.target == LowerCell(l.target)
    ensures p.references.Some? <==> l.references.Some?
    ensures p.references.Some? ==>
      && |p.references.value| == |Delims(Lower(l.references.value))| + 1
      && Unsplit(p.references.value, Delims(Lower(l.references.value))) == Lower(l.references.value)
      && forall k :: 0 <= k < |p.references.value| ==>
           NoDelim(p.references.value[k]) && NoUpper(p.references.value[k])
  {
    match l.references
    case None => Prepared(l.file, LowerCell(l.source), LowerCell(l.target), None)
    case Some(s) =>
      SplitRoundTrip(Lower(s));
      SplitOfLowerIsLower(s);
      Prepared(l.file, LowerCell(l.source), LowerCell(l.target), Some(Split(Lower(s))))
  }

  /** `createDataframe`: one row per letter, in order, with sender and
      recipient lower-cased and the lower-cased references split into
      pieces that rejoin to the whole cell. */
  function CreateDataframe(ls: seq<Letter>): (r: seq<Prepared>)
    ensures |r| == |ls|
    ensures forall k :: 0 <= k < |r| ==>
      && r[k].file == ls[k].file
      && r[k].source == LowerCell(ls[k].source) && r[k].target == LowerCell(ls[k].target)
      && (r[k].references.Some? <==> ls[k].references.Some?)
    ensures forall k :: 0 <= k < |r| && r[k].references.Some? ==>
      && |r[k].references.value| == |Delims(Lower(ls[k].references.value))| + 1
      && Unsplit(r[k].references.value, Delims(Lower(ls[k].references.value))) == Lower(ls[k].references.value)
  {
    seq(|ls|, k requires 0 <= k < |ls| => Prepare(ls[k]))
  }
}
