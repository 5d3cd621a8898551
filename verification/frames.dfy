/** The slice of pandas the model needs: labelled rows of numeric cells, and positional selection. */
module Frames {
  import opened Wrappers
  import opened Errors
  import opened Seqs

  /**
   * One row of a DataFrame: its index label and its numeric cells. A column of the frame
   * that is absent from `fields` holds NaN in this row.
   */
  datatype Record = Record(index: int, fields: map<string, real>)

  /** A DataFrame: its column names and its rows in order. */
  datatype Frame = Frame(columns: set<string>, records: seq<Record>)

  /** The section catalog as read from its CSV file: column names and rows, in file order. */
  datatype Catalog = Catalog(columns: set<string>, rows: seq<map<string, real>>)

  /** The catalog as a frame; pandas labels the rows 0, 1, 2, ... */
  function Full(c: Catalog): (f: Frame)
    ensures f.columns == c.columns && |f.records| == |c.rows|
    ensures forall i :: 0 <= i < |c.rows| ==> f.records[i] == Record(i, c.rows[i])
  {
    Frame(c.columns, seq(|c.rows|, i requires 0 <= i < |c.rows| => Record(i, c.rows[i])))
  }

  function LabelOf(r: Record): int
  {
    r.index
  }

  /** `df.index`: the row labels in order. */
  function Labels(rs: seq<Record>): seq<int>
  {
    Map(rs, LabelOf)
  }

  /** The row `iloc` reads for index `i` of an `n`-row frame; negative indexes count from the end. */
  function Position(i: int, n: nat): Option<nat>
  {
    if 0 <= i < n then Some(i) else if -(n as int) <= i < 0 then Some(n + i) else None
  }

  predicate InBounds(i: int, n: nat)
  {
    Position(i, n).Some?
  }

  /** `df.iloc[indexes]`: the rows at the given positions, in the given order. */
  function ILoc(f: Frame, indexes: seq<int>): (r: Result<Frame, Error>)
    ensures r.Success? <==> forall k :: 0 <= k < |indexes| ==> InBounds(indexes[k], |f.records|)
    ensures r.Failure? ==> r.error == PositionOutOfBounds
    ensures r.Success? ==> r.value.columns == f.columns && |r.value.records| == |indexes|
    ensures r.Success? ==> forall k :: 0 <= k < |indexes| ==>
              r.value.records[k] == f.records[Position(indexes[k], |f.records|).value]
  {
    var n := |f.records|;
    if forall k :: 0 <= k < |indexes| ==> InBounds(indexes[k], n) then
      Success(Frame(f.columns, seq(|indexes|, k requires 0 <= k < |indexes| => f.records[Position(indexes[k], n).value])))
    else
      Failure(PositionOutOfBounds)
  }

  /** The nonnegative positions the indexes denote in an `n`-row frame. */
  function Resolve(indexes: seq<int>, n: nat): seq<int>
  {
    seq(|indexes|, k requires 0 <= k < |indexes| => if indexes[k] < 0 then indexes[k] + n else indexes[k])
  }

  /** Selecting catalog rows by position yields rows labelled by those positions. */
  lemma ILocLabels(c: Catalog, indexes: seq<int>)
    requires ILoc(Full(c), indexes).Success?
    ensures Labels(ILoc(Full(c), indexes).value.records) == Resolve(indexes, |c.rows|)
  {
  }
}
