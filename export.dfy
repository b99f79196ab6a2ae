/** The rows `export_excel` appends to its worksheet: a header, then one row
    per stored record. */
module Export {
  import opened Store

  const Header: seq<string> := ["Name", "Date", "Time"]

  /** The `(name, date, time)` columns of one record, as one worksheet row. */
  function Row(r: Record): seq<string>
  {
    [r.name, r.date, r.time]
  }

  /** The worksheet's rows: the header first, then each record's columns in
      stored order, so one row more than there are records. */
  method ExportRows(rs: seq<Record>) returns (rows: seq<seq<string>>)
    ensures |rows| == |rs| + 1
    ensures rows[0] == Header
    ensures forall i :: 0 <= i < |rs| ==> rows[i + 1] == Row(rs[i])
  {
    rows := [Header];
    for i := 0 to |rs|
      invariant |rows| == i + 1
      invariant rows[0] == Header
      invariant forall k :: 0 <= k < i ==> rows[k + 1] == Row(rs[k])
    {
      rows := rows + [Row(rs[i])];
    }
  }
}
