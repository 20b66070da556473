/** Relation expansion of the diary-entry ("JQA") variant: the `people` cell
    of every record is split on `,` or `;`, exploded to one row per piece,
    stripped, and every row with an empty or missing cell is dropped. The
    network-creation script shares this code. */
module JqaExpand {
  import opened Wrappers
  import opened Text
  import opened Seqs

  /** A table cell; `None` is NaN. */
  type Cell = Option<String>

  /** One row of the table the XML parser builds: the entry identifier, the
      raw `people` cell, and the remaining columns. */
  datatype Record = Record(entry: Cell, people: Cell, rest: seq<Cell>)

  /** One row after expansion: every cell is present and non-empty. */
  datatype Mention = Mention(entry: String, person: String, rest: seq<String>)

  /** A cell `dropna` keeps once `replace('', NaN)` has run. */
  predicate Present(c: Cell)
  {
    c.Some? && c.value != []
  }

  predicate AllPresent(cs: seq<Cell>)
  {
    forall k :: 0 <= k < |cs| ==> Present(cs[k])
  }

  function Values(cs: seq<Cell>): (r: seq<String>)
    requires AllPresent(cs)
    ensures |r| == |cs|
    ensures forall k :: 0 <= k < |r| ==> Some(r[k]) == cs[k] && r[k] != []
  {
    seq(|cs|, k requires 0 <= k < |cs| => cs[k].value)
  }

  /** A piece survives when it does not strip to the empty string. */
  predicate Kept(piece: String)
  {
    Strip(piece) != []
  }

  /** What every surviving row satisfies. */
  predicate Clean(m: Mention)
  {
    && m.entry != [] && m.person != []
    && IsStripped(m.person) && NoDelim(m.person)
    && forall k :: 0 <= k < |m.rest| ==> m.rest[k] != []
  }

  /** The row a kept piece becomes. */
  function ToMention(entry: String, rest: seq<String>): String -> Mention
  {
    piece => Mention(entry, Strip(piece), rest)
  }

  /** How many of the pieces are kept and strip to `person`. */
  function PieceCount(pieces: seq<String>, person: String): nat
  {
    if |pieces| == 0 then 0
    else
      var piece := pieces[|pieces| - 1];
      PieceCount(pieces[..|pieces| - 1], person) + (if Kept(piece) && Strip(piece) == person then 1 else 0)
  }

  /** The rows carrying `entry` and `rest` are counted by their person. */
  lemma {:induction false} ImageCountIsPieceCount(entry: String, pieces: seq<String>, rest: seq<String>)
    ensures forall m ::
      ImageCount(pieces, Kept, ToMention(entry, rest), m)
        == (if m.entry == entry && m.rest == rest then PieceCount(pieces, m.person) else 0)
  {
    if |pieces| > 0 {
      ImageCountIsPieceCount(entry, pieces[..|pieces| - 1], rest);
    }
  }

  /** Explodes the pieces of one record and strips them: one row for every
      piece that does not strip to the empty string, carrying the stripped
      piece and a copy of the other columns. A person named by several
      pieces gets one row per piece. */
  function Explode(entry: String, pieces: seq<String>, rest: seq<String>): (r: seq<Mention>)
    ensures |r| == CountIf(pieces, Kept)
    ensures forall m :: m in r <==>
      exists k :: 0 <= k < |pieces| && Kept(pieces[k]) && m == Mention(entry, Strip(pieces[k]), rest)
    ensures forall m :: multiset(r)[m] == if m.entry == entry && m.rest == rest then PieceCount(pieces, m.person) else 0
  {
    ImageCountIsPieceCount(entry, pieces, rest);
    FilterMap(pieces, Kept, ToMention(entry, rest))
  }

  /** Every cell of the record is usable: nothing is dropped for a missing
      or empty entry or other column, and `people` is not NaN. */
  predicate Complete(rec: Record)
  {
    Present(rec.entry) && rec.people.Some? && AllPresent(rec.rest)
  }

  /** How many rows `rec` expands to that equal `m`: none unless the record
      is complete and `m` carries its entry and other columns, and otherwise
      one per piece of its `people` cell that strips to `m`'s person. */
  function RecordCount(rec: Record, m: Mention): nat
  {
    if Complete(rec) && m.entry == rec.entry.value && m.rest == Values(rec.rest)
    then PieceCount(Split(rec.people.value), m.person)
    else 0
  }

  /** Exploding delimiter-free pieces with a present entry and present other
      columns gives clean rows only. */
  lemma ExplodeClean(entry: String, pieces: seq<String>, rest: seq<String>)
    requires entry != []
    requires forall k :: 0 <= k < |pieces| ==> NoDelim(pieces[k])
    requires forall k :: 0 <= k < |rest| ==> rest[k] != []
    ensures forall m :: m in Explode(entry, pieces, rest) ==> Clean(m)
  {
    forall m | m in Explode(entry, pieces, rest) ensures Clean(m) {
      var k :| 0 <= k < |pieces| && Kept(pieces[k]) && m == Mention(entry, Strip(pieces[k]), rest);
      StripNoDelim(pieces[k]);
    }
  }

  /** The rows one record expands to. A missing `people` cell explodes to a
      single NaN row, and any empty or missing cell drops its rows. */
  function ExpandRecord(rec: Record): (r: seq<Mention>)
    ensures forall m :: m in r ==> Clean(m)
    ensures !Complete(rec) ==> r == []
    ensures Complete(rec) ==> |r| == CountIf(Split(rec.people.value), Kept)
    ensures forall m :: multiset(r)[m] == RecordCount(rec, m)
  {
    if Complete(rec) then
      ExplodeClean(rec.entry.value, Split(rec.people.value), Values(rec.rest));
      Explode(rec.entry.value, Split(rec.people.value), Values(rec.rest))
    else []
  }

  /** A row is exploded from the pieces exactly when it carries the entry,
      the other columns and the stripped form of a kept piece. */
  lemma ExplodeMember(entry: String, pieces: seq<String>, rest: seq<String>, m: Mention)
    ensures m in Explode(entry, pieces, rest) <==>
      && m.entry == entry && m.rest == rest
      && exists k :: 0 <= k < |pieces| && Kept(pieces[k]) && m.person == Strip(pieces[k])
  {
    if m.entry == entry && m.rest == rest
       && exists k :: 0 <= k < |pieces| && Kept(pieces[k]) && m.person == Strip(pieces[k]) {
      var k :| 0 <= k < |pieces| && Kept(pieces[k]) && m.person == Strip(pieces[k]);
      assert m == Mention(entry, Strip(pieces[k]), rest);
    }
  }

  /** A complete record yields exactly one row per piece of its `people` cell
      that is non-empty once stripped, carrying the stripped piece and the
      other columns unchanged. */
  lemma ExpandRecordPieces(rec: Record, m: Mention)
    requires Complete(rec)
    ensures m in ExpandRecord(rec) <==>
      && m.entry == rec.entry.value && m.rest == Values(rec.rest)
      && exists k :: 0 <= k < |Split(rec.people.value)| && Kept(Split(rec.people.value)[k])
                     && m.person == Strip(Split(rec.people.value)[k])
  {
    assert ExpandRecord(rec) == Explode(rec.entry.value, Split(rec.people.value), Values(rec.rest));
    ExplodeMember(rec.entry.value, Split(rec.people.value), Values(rec.rest), m);
  }

  /** How many rows of the whole table equal `m`, summed record by record. */
  function Mentions(recs: seq<Record>, m: Mention): nat
  {
    if |recs| == 0 then 0
    else Mentions(recs[..|recs| - 1], m) + RecordCount(recs[|recs| - 1], m)
  }

  lemma {:induction false} BlockCountIsMentions(recs: seq<Record>)
    ensures forall m :: BlockCount(recs, ExpandRecord, m) == Mentions(recs, m)
  {
    if |recs| > 0 {
      BlockCountIsMentions(recs[..|recs| - 1]);
    }
  }

  /** `createDataframe` after the parser: the records' expansions, in order.
      A row is in the table exactly when some record expands to it, and it
      occurs once for every piece that yields it, so a person named twice
      in one entry has two rows. */
  function CreateDataframe(recs: seq<Record>): (r: seq<Mention>)
    ensures forall m :: m in r <==> exists i :: 0 <= i < |recs| && m in ExpandRecord(recs[i])
    ensures forall m :: m in r ==> Clean(m)
    ensures forall m :: multiset(r)[m] == Mentions(recs, m)
  {
    BlockCountIsMentions(recs);
    FlatMap(recs, ExpandRecord)
  }

  /** How many pieces of complete records with entry `e` strip to `p`. */
  function EntryCount(recs: seq<Record>, e: String, p: String): nat
  {
    if |recs| == 0 then 0
    else
      var rec := recs[|recs| - 1];
      EntryCount(recs[..|recs| - 1], e, p)
        + (if Complete(rec) && rec.entry.value == e then PieceCount(Split(rec.people.value), p) else 0)
  }
}
