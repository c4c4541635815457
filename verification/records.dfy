/** Rows of the uploaded table and the ascending sort on the RCT column. */
module Records {
  import opened Wrappers

  /** One spreadsheet row, reduced to the columns the processing reads. Brand fields and the
      description are nullable cells; RCT is the record-creation-time key. */
  datatype Record = Record(
    rct: int,
    brandOwner: Option<string>,
    brand1: Option<string>,
    brandExtension: Option<string>,
    description: Option<string>)

  /** An uploaded table: its header and its rows. */
  datatype Table = Table(columns: seq<string>, rows: seq<Record>)

  ghost predicate SortedByRct(rows: seq<Record>)
  {
    forall i, j :: 0 <= i < j < |rows| ==> rows[i].rct <= rows[j].rct
  }

  /** Puts `r` into the sorted `rows` in front of the first row whose key is not smaller. */
  function InsertByRct(r: Record, rows: seq<Record>): (out: seq<Record>)
    requires SortedByRct(rows)
    ensures SortedByRct(out)
    ensures multiset(out) == multiset(rows) + multiset{r}
    ensures out[0] == r || out[0] == rows[0]
  {
    if rows == [] || r.rct <= rows[0].rct then [r] + rows
    else
      var rest := InsertByRct(r, rows[1..]);
      assert rows == [rows[0]] + rows[1..];
      assert forall k :: 0 < k < |rows| ==> rows[0].rct <= rows[k].rct;
      [rows[0]] + rest
  }

  /** `df.sort_values(by="RCT")`: a permutation of the rows ordered non-decreasingly by RCT.
      Nothing is promised about the relative order of rows with equal keys. */
  function SortByRct(rows: seq<Record>): (out: seq<Record>)
    ensures SortedByRct(out)
    ensures multiset(out) == multiset(rows)
  {
    if rows == [] then []
    else
      assert rows == [rows[0]] + rows[1..];
      InsertByRct(rows[0], SortByRct(rows[1..]))
  }

  /** Sorting keeps the row count. */
  lemma SortKeepsCount(rows: seq<Record>)
    ensures |SortByRct(rows)| == |rows|
  {
    assert |multiset(SortByRct(rows))| == |multiset(rows)|;
  }
}
