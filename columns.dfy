/** The columns of the deployments table and the flex-box style of each
    (src/_components/table/columns.ts). */
module Columns {
  import opened Wrappers

  /** A column: its heading (`label`), and a fixed width or a flex factor. */
  datatype Column = Column(heading: string, width: Option<int>, flex: Option<int>)

  /** A column's style: a fixed width, or none, with its grow and shrink
      factors. */
  datatype ColumnStyle = ColumnStyle(width: Option<int>, flexGrow: int, flexShrink: int)

  /** `columns`, in display order. */
  const TableColumns: seq<Column> := [
    Column("Time", Some(14), None),
    Column("Status", Some(12), None),
    Column("Target", Some(10), None),
    Column("URL", Some(40), None),
    Column("Branch", Some(22), None),
    Column("Commit", Some(8), None)
  ]

  /** `getColumnStyle`: a column with a width is fixed and neither grows nor
      shrinks; any other grows by its `flex` (0 when unset) and shrinks only
      when `flex` is set and non-zero. */
  function GetColumnStyle(col: Column): (r: ColumnStyle)
    ensures col.width.Some? ==> r == ColumnStyle(col.width, 0, 0)
    ensures col.width.None? ==> r.width.None? && r.flexGrow == col.flex.GetOr(0)
    ensures col.width.None? ==> (r.flexShrink == 1 <==> col.flex.Some? && col.flex.value != 0)
    ensures r.flexShrink == 0 || r.flexShrink == 1
  {
    if col.width.Some? then ColumnStyle(col.width, 0, 0)
    else ColumnStyle(None, col.flex.GetOr(0), if col.flex.Some? && col.flex.value != 0 then 1 else 0)
  }

  /** A column shrinks exactly when it grows. */
  lemma ShrinksIffGrows(col: Column)
    ensures GetColumnStyle(col).flexShrink == 1 <==> GetColumnStyle(col).flexGrow != 0
  {
  }

  /** The table has six fixed columns, Time 14, Status 12, Target 10, URL 40,
      Branch 22 and Commit 8, and so none of them flexes. */
  lemma TableColumnsFixed()
    ensures |TableColumns| == 6
    ensures Headings(TableColumns) == ["Time", "Status", "Target", "URL", "Branch", "Commit"]
    ensures forall k :: 0 <= k < |TableColumns| ==>
              GetColumnStyle(TableColumns[k]).width.Some?
              && GetColumnStyle(TableColumns[k]).flexGrow == 0
              && GetColumnStyle(TableColumns[k]).flexShrink == 0
    ensures TotalWidth(TableColumns) == 106
  {
  }

  /** The heading row: each column's heading, in column order. */
  function Headings(cols: seq<Column>): (r: seq<string>)
    ensures |r| == |cols|
    ensures forall k :: 0 <= k < |r| ==> r[k] == cols[k].heading
  {
    if cols == [] then [] else [cols[0].heading] + Headings(cols[1..])
  }

  /** The cells the fixed columns take together. */
  function TotalWidth(cols: seq<Column>): int {
    if cols == [] then 0 else cols[0].width.GetOr(0) + TotalWidth(cols[1..])
  }
}
