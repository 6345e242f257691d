/** A scraped HTML table body, as the scrapers see it once the document has
    been parsed: a sequence of <tr> rows, each with a row-level marker (class
    "full_table" on genuine data rows, absent on separator rows), the text of
    its leading <th> cell and the texts of its <td> cells. */
module Markup {

  datatype Row = Row(fullTable: bool, th: string, tds: seq<string>)

  /** The texts of all cells of a row, header cell first. */
  function Cells(r: Row): seq<string> {
    [r.th] + r.tds
  }

  /** The rows marked "full_table", in document order. */
  function FullTableRows(rows: seq<Row>): seq<Row>
  {
    if rows == [] then []
    else
      var last := rows[|rows| - 1];
      FullTableRows(rows[..|rows| - 1]) + (if last.fullTable then [last] else [])
  }

  /** The positions of the rows marked "full_table". */
  function FullTableIndices(rows: seq<Row>): seq<nat>
  {
    if rows == [] then []
    else
      var n := |rows| - 1;
      FullTableIndices(rows[..n]) + (if rows[n].fullTable then [n] else [])
  }

  /** The filter keeps exactly the marked rows, each once, in document order:
      its k-th row is the row at the k-th marked position, the positions
      ascend, and a position is listed iff its row is marked. */
  lemma {:induction false} FullTableSelection(rows: seq<Row>)
    ensures |FullTableRows(rows)| == |FullTableIndices(rows)|
    ensures forall k :: 0 <= k < |FullTableIndices(rows)| ==>
      FullTableIndices(rows)[k] < |rows| && FullTableRows(rows)[k] == rows[FullTableIndices(rows)[k]]
    ensures forall k, l :: 0 <= k < l < |FullTableIndices(rows)| ==>
      FullTableIndices(rows)[k] < FullTableIndices(rows)[l]
    ensures forall i :: 0 <= i < |rows| ==> (rows[i].fullTable <==> i in FullTableIndices(rows))
  {
    if rows != [] {
      var n := |rows| - 1;
      var front := rows[..n];
      FullTableSelection(front);
      var p, r := FullTableIndices(front), FullTableRows(front);
      var tail := if rows[n].fullTable then [n] else [];
      assert FullTableIndices(rows) == p + tail;
      assert FullTableRows(rows) == r + (if rows[n].fullTable then [rows[n]] else []);
      assert n !in p;
      forall i | 0 <= i < |rows|
        ensures rows[i].fullTable <==> i in p + tail
      {
        if i < n {
          assert rows[i] == front[i];
        }
      }
    }
  }

  /** Every row the filter keeps is marked "full_table". */
  lemma {:induction false} FullTableRowsMarked(rows: seq<Row>)
    ensures forall r :: r in FullTableRows(rows) ==> r.fullTable && r in rows
  {
    if rows != [] {
      FullTableRowsMarked(rows[..|rows| - 1]);
    }
  }
}
