/**
 * `processColSpan` (src/sheets/reviewRemoteGoogleSheetsLocal.js): rows whose cells may carry a
 * column span are flattened into plain grid rows, a spanned cell becoming its content followed by
 * empty filler cells, and one merge rectangle is recorded for each spanned cell.
 */
module ColSpan {
  import opened Wrappers
  import opened Sheet
  import opened Collections

  /** A cell's `span`: how many columns and rows it covers, each possibly unset. */
  datatype Span = Span(cols: Option<int>, rows: Option<int>)

  /** An input cell: `span` and `col` when present, and the cell's own fields (`fields`) otherwise. */
  datatype SpanCell<C> = SpanCell(span: Option<Span>, col: Option<C>, fields: C)

  /** An input row: its other properties and its cells. */
  datatype SpanRow<P, C> = SpanRow(props: P, values: seq<SpanCell<C>>)

  /** An output cell: an input cell copied as it was, the content of a spanned cell, or the empty filler `{}`. */
  datatype Placed<C> = Copied(cell: SpanCell<C>) | Content(content: C) | Filler

  /** An output row: the input row's properties with `values` rebuilt. */
  datatype GridRow<P, C> = GridRow(props: P, values: seq<Placed<C>>)

  /** `col.span && col.col`. */
  predicate IsSpanned<C>(c: SpanCell<C>) {
    c.span.Some? && c.col.Some?
  }

  /** `x || 1` for a numeric setting: an unset or zero value counts as 1. */
  function OrOne(x: Option<int>): (r: int)
    ensures r != 0
    ensures x.Some? && x.value != 0 ==> r == x.value
  {
    if x.None? || x.value == 0 then 1 else x.value
  }

  function ColSpanOf<C>(c: SpanCell<C>): int
    requires IsSpanned(c)
  {
    OrOne(c.span.value.cols)
  }

  function RowSpanOf<C>(c: SpanCell<C>): int
    requires IsSpanned(c)
  {
    OrOne(c.span.value.rows)
  }

  /** What the inner loop pushes for a span of `n + 1` columns: `n` fillers, none when `n` is not positive. */
  function Fillers<C>(n: int): (r: seq<Placed<C>>)
    ensures |r| == if n > 0 then n else 0
    ensures forall k :: 0 <= k < |r| ==> r[k] == Filler
    decreases n
  {
    if n <= 0 then [] else Fillers(n - 1) + [Filler]
  }

  /** The output cells for one input cell. */
  function ExpandCell<C>(c: SpanCell<C>): seq<Placed<C>>
  {
    if IsSpanned(c) then [Content(c.col.value)] + Fillers(ColSpanOf(c) - 1) else [Copied(c)]
  }

  /** The output cells of a row: the expansions of its cells, left to right. */
  function ExpandRow<C>(cells: seq<SpanCell<C>>): seq<Placed<C>>
    decreases |cells|
  {
    if |cells| == 0 then []
    else ExpandRow(cells[..|cells| - 1]) + ExpandCell(cells[|cells| - 1])
  }

  /** The merges recorded for the spanned cells of row `rowIndex`, left to right. */
  function RowMerges<C>(cells: seq<SpanCell<C>>, rowIndex: int, sheetId: int): seq<GridRange>
    decreases |cells|
  {
    if |cells| == 0 then []
    else
      var init := cells[..|cells| - 1];
      var c := cells[|cells| - 1];
      var trueColIndex := |ExpandRow(init)|;
      RowMerges(init, rowIndex, sheetId) +
      if IsSpanned(c)
      then [GridRange(sheetId, rowIndex, rowIndex + RowSpanOf(c), trueColIndex, trueColIndex + ColSpanOf(c))]
      else []
  }

  /** Extending a row by one cell extends its output and its merges by that cell's. */
  lemma SnocStep<C>(cells: seq<SpanCell<C>>, c: SpanCell<C>, rowIndex: int, sheetId: int)
    ensures ExpandRow(cells + [c]) == ExpandRow(cells) + ExpandCell(c)
    ensures RowMerges(cells + [c], rowIndex, sheetId) == RowMerges(cells, rowIndex, sheetId) +
      if IsSpanned(c)
      then [GridRange(sheetId, rowIndex, rowIndex + RowSpanOf(c), |ExpandRow(cells)|, |ExpandRow(cells)| + ColSpanOf(c))]
      else []
  {
    assert (cells + [c])[..|cells|] == cells;
  }

  /** The merges of all rows, in row-major order. */
  function AllMerges<P, C>(rows: seq<SpanRow<P, C>>, sheetId: int): seq<GridRange>
    decreases |rows|
  {
    if |rows| == 0 then []
    else AllMerges(rows[..|rows| - 1], sheetId) + RowMerges(rows[|rows| - 1].values, |rows| - 1, sheetId)
  }

  /** The inner loop of `processColSpan` over the cells of row `rowIndex`: its new values and the merges it pushes. */
  method ProcessRow<C>(row: seq<SpanCell<C>>, rowIndex: int, sheetId: int)
    returns (values: seq<Placed<C>>, merges: seq<GridRange>)
    ensures values == ExpandRow(row)
    ensures merges == RowMerges(row, rowIndex, sheetId)
  {
    values := [];
    merges := [];
    for colIndex := 0 to |row|
      invariant values == ExpandRow(row[..colIndex])
      invariant merges == RowMerges(row[..colIndex], rowIndex, sheetId)
    {
      var col := row[colIndex];
      ghost var done := row[..colIndex];
      assert row[..colIndex + 1] == done + [col];
      if col.span.Some? && col.col.Some? {
        var trueColIndex := |values|;
        var colSpan := OrOne(col.span.value.cols);
        SpannedSnoc(done, col, rowIndex, sheetId);
        assert trueColIndex == |ExpandRow(done)| && colSpan == ColSpanOf(col) && OrOne(col.span.value.rows) == RowSpanOf(col);
        merges := merges + [GridRange(sheetId, rowIndex, rowIndex + OrOne(col.span.value.rows), trueColIndex, trueColIndex + colSpan)];
        values := PushFillers(values + [Content(col.col.value)], colSpan - 1);
      } else {
        CopiedSnoc(done, col, rowIndex, sheetId);
        values := values + [Copied(col)];
      }
      assert values == ExpandRow(done + [col]) && merges == RowMerges(done + [col], rowIndex, sheetId);
    }
    assert row[..|row|] == row;
  }

  /** A spanned cell contributes its content and fillers, and one merge starting at the current width. */
  lemma SpannedSnoc<C>(cells: seq<SpanCell<C>>, c: SpanCell<C>, rowIndex: int, sheetId: int)
    requires IsSpanned(c)
    ensures ExpandRow(cells + [c]) == ExpandRow(cells) + [Content(c.col.value)] + Fillers(ColSpanOf(c) - 1)
    ensures RowMerges(cells + [c], rowIndex, sheetId) == RowMerges(cells, rowIndex, sheetId) +
      [GridRange(sheetId, rowIndex, rowIndex + RowSpanOf(c), |ExpandRow(cells)|, |ExpandRow(cells)| + ColSpanOf(c))]
  {
    SnocStep(cells, c, rowIndex, sheetId);
  }

  /** Any other cell is copied as it is and records no merge. */
  lemma CopiedSnoc<C>(cells: seq<SpanCell<C>>, c: SpanCell<C>, rowIndex: int, sheetId: int)
    requires !IsSpanned(c)
    ensures ExpandRow(cells + [c]) == ExpandRow(cells) + [Copied(c)]
    ensures RowMerges(cells + [c], rowIndex, sheetId) == RowMerges(cells, rowIndex, sheetId)
  {
    SnocStep(cells, c, rowIndex, sheetId);
  }

  /** The inner loop that pushes an empty cell `colSpan - 1` times; here `n` stands for `colSpan - 1`. */
  method PushFillers<C>(values: seq<Placed<C>>, n: int) returns (r: seq<Placed<C>>)
    ensures r == values + Fillers(n)
  {
    r := values;
    var i := 0;
    while i < n
      invariant 0 <= i && (i <= n || i == 0)
      invariant r == values + Fillers(i)
    {
      r := r + [Filler];
      i := i + 1;
    }
  }

  /** `processColSpan(rowDataWithSpan, sheetId)`: the flattened rows and the merge rectangles. */
  method ProcessColSpan<P, C>(rowDataWithSpan: seq<SpanRow<P, C>>, sheetId: int)
    returns (rowData: seq<GridRow<P, C>>, merges: seq<GridRange>)
    ensures |rowData| == |rowDataWithSpan|
    ensures forall i :: 0 <= i < |rowData| ==>
      rowData[i] == GridRow(rowDataWithSpan[i].props, ExpandRow(rowDataWithSpan[i].values))
    ensures merges == AllMerges(rowDataWithSpan, sheetId)
  {
    rowData := [];
    merges := [];
    for rowIndex := 0 to |rowDataWithSpan|
      invariant |rowData| == rowIndex
      invariant forall i :: 0 <= i < rowIndex ==>
        rowData[i] == GridRow(rowDataWithSpan[i].props, ExpandRow(rowDataWithSpan[i].values))
      invariant merges == AllMerges(rowDataWithSpan[..rowIndex], sheetId)
    {
      var values, rowMerges := ProcessRow(rowDataWithSpan[rowIndex].values, rowIndex, sheetId);
      assert rowDataWithSpan[..rowIndex + 1][..rowIndex] == rowDataWithSpan[..rowIndex];
      merges := merges + rowMerges;
      rowData := rowData + [GridRow(rowDataWithSpan[rowIndex].props, values)];
    }
    assert rowDataWithSpan[..|rowDataWithSpan|] == rowDataWithSpan;
  }

  /** The output width a cell takes: its column span when that exceeds 1, and 1 otherwise. */
  function CellWidth<C>(c: SpanCell<C>): nat {
    if IsSpanned(c) && ColSpanOf(c) > 1 then ColSpanOf(c) else 1
  }

  function Width<C>(cells: seq<SpanCell<C>>): nat
    decreases |cells|
  {
    if |cells| == 0 then 0 else CellWidth(cells[0]) + Width(cells[1..])
  }

  lemma {:induction false} WidthSnoc<C>(cells: seq<SpanCell<C>>, c: SpanCell<C>)
    ensures Width(cells + [c]) == Width(cells) + CellWidth(c)
    decreases |cells|
  {
    if |cells| == 0 {
      assert (cells + [c])[1..] == [];
    } else {
      assert (cells + [c])[1..] == cells[1..] + [c];
      WidthSnoc(cells[1..], c);
    }
  }

  lemma ExpandCellWidth<C>(c: SpanCell<C>)
    ensures |ExpandCell(c)| == CellWidth(c)
  {
  }

  /** Each output row is as wide as the sum of its cells' widths. */
  lemma {:induction false} ExpandRowWidth<C>(cells: seq<SpanCell<C>>)
    ensures |ExpandRow(cells)| == Width(cells)
    decreases |cells|
  {
    if |cells| > 0 {
      var init := cells[..|cells| - 1];
      var last := cells[|cells| - 1];
      ExpandRowWidth(init);
      WidthSnoc(init, last);
      ExpandCellWidth(last);
      assert init + [last] == cells;
      assert ExpandRow(cells) == ExpandRow(init) + ExpandCell(last);
    }
  }

  /** One merge is recorded per spanned cell. */
  lemma {:induction false} RowMergesCount<C>(cells: seq<SpanCell<C>>, rowIndex: int, sheetId: int)
    ensures |RowMerges(cells, rowIndex, sheetId)| == |Filter(cells, IsSpanned)|
    decreases |cells|
  {
    if |cells| > 0 {
      var init := cells[..|cells| - 1];
      RowMergesCount(init, rowIndex, sheetId);
      FilterSnoc(init, cells[|cells| - 1], IsSpanned);
      assert init + [cells[|cells| - 1]] == cells;
    }
  }

  /** Spans the way the sheet templates write them: no negative column or row counts. */
  predicate SpansNonNegative<C>(cells: seq<SpanCell<C>>) {
    forall k :: 0 <= k < |cells| && IsSpanned(cells[k]) ==>
      (cells[k].span.value.cols.None? || cells[k].span.value.cols.value >= 0) &&
      (cells[k].span.value.rows.None? || cells[k].span.value.rows.value >= 0)
  }

  /**
   * A merge of row `rowIndex` over the output cells `out`: it starts on a spanned cell's content,
   * covers only fillers after it, and lies inside the row.
   */
  predicate MergeCovers<C>(m: GridRange, out: seq<Placed<C>>, rowIndex: int, sheetId: int) {
    m.sheetId == sheetId && m.startRowIndex == rowIndex && m.startRowIndex < m.endRowIndex &&
    0 <= m.startColumnIndex < m.endColumnIndex <= |out| &&
    out[m.startColumnIndex].Content? &&
    forall p :: m.startColumnIndex < p < m.endColumnIndex ==> out[p] == Filler
  }

  lemma MergeCoversExtend<C>(m: GridRange, a: seq<Placed<C>>, b: seq<Placed<C>>, rowIndex: int, sheetId: int)
    requires MergeCovers(m, a, rowIndex, sheetId)
    ensures MergeCovers(m, a + b, rowIndex, sheetId)
  {
    assert forall p :: 0 <= p < |a| ==> (a + b)[p] == a[p];
  }

  /**
   * Every merge of a row covers a spanned cell's content and its fillers inside the row, and the
   * merges of a row are ordered left to right without overlapping.
   */
  lemma {:induction false} RowMergesPlaced<C>(cells: seq<SpanCell<C>>, rowIndex: int, sheetId: int)
    requires SpansNonNegative(cells)
    ensures forall i :: 0 <= i < |RowMerges(cells, rowIndex, sheetId)| ==>
      MergeCovers(RowMerges(cells, rowIndex, sheetId)[i], ExpandRow(cells), rowIndex, sheetId)
    ensures forall i, j :: 0 <= i < j < |RowMerges(cells, rowIndex, sheetId)| ==>
      RowMerges(cells, rowIndex, sheetId)[i].endColumnIndex <= RowMerges(cells, rowIndex, sheetId)[j].startColumnIndex
    decreases |cells|
  {
    if |cells| > 0 {
      var init := cells[..|cells| - 1];
      var c := cells[|cells| - 1];
      assert SpansNonNegative(init) by {
        forall k | 0 <= k < |init| ensures init[k] == cells[k] { }
      }
      RowMergesPlaced(init, rowIndex, sheetId);
      var before := RowMerges(init, rowIndex, sheetId);
      var outInit := ExpandRow(init);
      var out := ExpandRow(cells);
      var ms := RowMerges(cells, rowIndex, sheetId);
      assert out == outInit + ExpandCell(c);
      forall i | 0 <= i < |before| ensures MergeCovers(before[i], out, rowIndex, sheetId) {
        MergeCoversExtend(before[i], outInit, ExpandCell(c), rowIndex, sheetId);
      }
      if IsSpanned(c) {
        var m := ms[|ms| - 1];
        assert ms == before + [m];
        assert m.startColumnIndex == |outInit|;
        assert out[|outInit|] == Content(c.col.value);
        var fill := Fillers<C>(ColSpanOf(c) - 1);
        assert forall p :: |outInit| < p < |out| ==> out[p] == fill[p - |outInit| - 1];
        assert MergeCovers(m, out, rowIndex, sheetId);
      } else {
        assert ms == before;
      }
    }
  }

  /** Merges come row by row: each lies in one of the given rows, and their row indices never decrease. */
  lemma {:induction false} AllMergesRowMajor<P, C>(rows: seq<SpanRow<P, C>>, sheetId: int)
    ensures forall i :: 0 <= i < |AllMerges(rows, sheetId)| ==> 0 <= AllMerges(rows, sheetId)[i].startRowIndex < |rows|
    ensures forall i, j :: 0 <= i < j < |AllMerges(rows, sheetId)| ==>
      AllMerges(rows, sheetId)[i].startRowIndex <= AllMerges(rows, sheetId)[j].startRowIndex
    decreases |rows|
  {
    if |rows| > 0 {
      var init := rows[..|rows| - 1];
      AllMergesRowMajor(init, sheetId);
      RowMergesInRow(rows[|rows| - 1].values, |rows| - 1, sheetId);
    }
  }

  /**
   * The `i`-th merge of a row belongs to the row's `i`-th spanned cell: it is on the sheet, starts on
   * the row and ends `span.rows || 1` rows further down, and is `span.cols || 1` columns wide.
   */
  lemma {:induction false} RowMergesInRow<C>(cells: seq<SpanCell<C>>, rowIndex: int, sheetId: int)
    ensures |RowMerges(cells, rowIndex, sheetId)| == |Filter(cells, IsSpanned)|
    ensures forall i :: 0 <= i < |RowMerges(cells, rowIndex, sheetId)| ==>
      RowMerges(cells, rowIndex, sheetId)[i].sheetId == sheetId &&
      RowMerges(cells, rowIndex, sheetId)[i].startRowIndex == rowIndex &&
      RowMerges(cells, rowIndex, sheetId)[i].endRowIndex == rowIndex + RowSpanOf(Filter(cells, IsSpanned)[i]) &&
      RowMerges(cells, rowIndex, sheetId)[i].endColumnIndex ==
        RowMerges(cells, rowIndex, sheetId)[i].startColumnIndex + ColSpanOf(Filter(cells, IsSpanned)[i])
    decreases |cells|
  {
    RowMergesCount(cells, rowIndex, sheetId);
    if |cells| > 0 {
      var init := cells[..|cells| - 1];
      var c := cells[|cells| - 1];
      RowMergesInRow(init, rowIndex, sheetId);
      assert init + [c] == cells;
      FilterSnoc(init, c, IsSpanned);
    }
  }

  /** The `i`-th merge of a row starts on the content of the row's `i`-th spanned cell in the expanded row. */
  lemma RowMergesStartOnCell<C>(cells: seq<SpanCell<C>>, rowIndex: int, sheetId: int)
    ensures |RowMerges(cells, rowIndex, sheetId)| == |Filter(cells, IsSpanned)|
    ensures forall i :: 0 <= i < |RowMerges(cells, rowIndex, sheetId)| ==>
      0 <= RowMerges(cells, rowIndex, sheetId)[i].startColumnIndex < |ExpandRow(cells)| &&
      ExpandRow(cells)[RowMerges(cells, rowIndex, sheetId)[i].startColumnIndex] ==
        Content(Filter(cells, IsSpanned)[i].col.value)
  {
    RowMergesCount(cells, rowIndex, sheetId);
    forall i | 0 <= i < |RowMerges(cells, rowIndex, sheetId)|
      ensures 0 <= RowMerges(cells, rowIndex, sheetId)[i].startColumnIndex < |ExpandRow(cells)| &&
        ExpandRow(cells)[RowMerges(cells, rowIndex, sheetId)[i].startColumnIndex] ==
          Content(Filter(cells, IsSpanned)[i].col.value)
    {
      RowMergeStartAt(cells, rowIndex, sheetId, i);
    }
  }

  lemma {:induction false} RowMergeStartAt<C>(cells: seq<SpanCell<C>>, rowIndex: int, sheetId: int, i: nat)
    requires i < |RowMerges(cells, rowIndex, sheetId)|
    ensures i < |Filter(cells, IsSpanned)|
    ensures 0 <= RowMerges(cells, rowIndex, sheetId)[i].startColumnIndex < |ExpandRow(cells)|
    ensures ExpandRow(cells)[RowMerges(cells, rowIndex, sheetId)[i].startColumnIndex] ==
      Content(Filter(cells, IsSpanned)[i].col.value)
    decreases |cells|
  {
    RowMergesCount(cells, rowIndex, sheetId);
    var init := cells[..|cells| - 1];
    var c := cells[|cells| - 1];
    assert init + [c] == cells;
    FilterSnoc(init, c, IsSpanned);
    var before := RowMerges(init, rowIndex, sheetId);
    var ms := RowMerges(cells, rowIndex, sheetId);
    var outInit := ExpandRow(init);
    if IsSpanned(c) {
      SpannedSnoc(init, c, rowIndex, sheetId);
    } else {
      CopiedSnoc(init, c, rowIndex, sheetId);
    }
    if i < |before| {
      RowMergeStartAt(init, rowIndex, sheetId, i);
      assert ms[i] == before[i];
      assert Filter(cells, IsSpanned)[i] == Filter(init, IsSpanned)[i];
      ExpandKeepsPrefix(init, c, before[i].startColumnIndex);
    } else {
      assert ms[i].startColumnIndex == |outInit|;
      assert Filter(cells, IsSpanned)[i] == c;
      assert ExpandRow(cells)[|outInit|] == Content(c.col.value);
    }
  }

  lemma ExpandKeepsPrefix<C>(init: seq<SpanCell<C>>, c: SpanCell<C>, j: int)
    requires 0 <= j < |ExpandRow(init)|
    ensures j < |ExpandRow(init + [c])| && ExpandRow(init + [c])[j] == ExpandRow(init)[j]
  {
    SnocStep(init, c, 0, 0);
  }

  /** A cell without a span: the table header cells the sheet uses, written as their titles. */
  function Single(title: string): SpanCell<string> {
    SpanCell(None, None, title)
  }

  function Spanning(cols: int, title: string): SpanCell<string> {
    SpanCell(Some(Span(Some(cols), None)), Some(title), "")
  }

  /**
   * The table header row of the review sheet: four single cells, a two-column "last commit time",
   * three single cells, a two-column "commits" and a four-column hint.
   */
  function HeadRowCells(): seq<SpanCell<string>> {
    HeadRowStartCells() + HeadRowEndCells()
  }

  /** The cells up to "last commit time". */
  function HeadRowStartCells(): seq<SpanCell<string>> {
    [Single("hidden"), Single("last commit author"), Single("branch"), Single("authors"),
     Spanning(2, "last commit time")]
  }

  /** The cells from "action" on. */
  function HeadRowEndCells(): seq<SpanCell<string>> {
    [Single("action"), Single("behind"), Single("ahead"),
     Spanning(2, "commits"), Spanning(4, "select cell for commit summary")]
  }

  /** Appending a single cell widens the row by one column and adds no merge. */
  lemma AppendSingle(cells: seq<SpanCell<string>>, title: string, rowIndex: int)
    ensures |ExpandRow(cells + [Single(title)])| == |ExpandRow(cells)| + 1
    ensures RowMerges(cells + [Single(title)], rowIndex, 0) == RowMerges(cells, rowIndex, 0)
  {
    CopiedSnoc(cells, Single(title), rowIndex, 0);
  }

  /** Appending a cell spanning `cols` columns widens the row by `cols` and adds a one-row merge over them. */
  lemma AppendSpanning(cells: seq<SpanCell<string>>, cols: int, title: string, rowIndex: int)
    requires cols >= 1
    ensures |ExpandRow(cells + [Spanning(cols, title)])| == |ExpandRow(cells)| + cols
    ensures RowMerges(cells + [Spanning(cols, title)], rowIndex, 0) == RowMerges(cells, rowIndex, 0) +
      [GridRange(0, rowIndex, rowIndex + 1, |ExpandRow(cells)|, |ExpandRow(cells)| + cols)]
  {
    var c := Spanning(cols, title);
    SpannedSnoc(cells, c, rowIndex, 0);
    assert ColSpanOf(c) == cols && RowSpanOf(c) == 1;
  }

  /** The four leading titles take one column each and add no merge. */
  lemma {:induction false} LeadTitles(rowIndex: int)
    ensures |ExpandRow([Single("hidden"), Single("last commit author"), Single("branch"), Single("authors")])| == 4
    ensures RowMerges([Single("hidden"), Single("last commit author"), Single("branch"), Single("authors")], rowIndex, 0) == []
  {
    var c0: seq<SpanCell<string>> := [];
    var c1 := c0 + [Single("hidden")];
    AppendSingle(c0, "hidden", rowIndex);
    var c2 := c1 + [Single("last commit author")];
    AppendSingle(c1, "last commit author", rowIndex);
    var c3 := c2 + [Single("branch")];
    AppendSingle(c2, "branch", rowIndex);
    AppendSingle(c3, "authors", rowIndex);
    assert c3 + [Single("authors")] == [Single("hidden"), Single("last commit author"), Single("branch"), Single("authors")];
  }

  /** The first five header cells: six columns, with the "last commit time" merge over columns 4-6. */
  lemma {:induction false} HeadRowStart(rowIndex: int)
    ensures |ExpandRow(HeadRowStartCells())| == 6
    ensures RowMerges(HeadRowStartCells(), rowIndex, 0) == [GridRange(0, rowIndex, rowIndex + 1, 4, 6)]
  {
    var c4 := [Single("hidden"), Single("last commit author"), Single("branch"), Single("authors")];
    LeadTitles(rowIndex);
    AppendSpanning(c4, 2, "last commit time", rowIndex);
    assert c4 + [Spanning(2, "last commit time")] == HeadRowStartCells();
  }

  /** The action, behind and ahead titles widen the row by three columns and add no merge. */
  lemma {:induction false} AppendCountTitles(c5: seq<SpanCell<string>>, rowIndex: int)
    ensures |ExpandRow(c5 + [Single("action"), Single("behind"), Single("ahead")])| == |ExpandRow(c5)| + 3
    ensures RowMerges(c5 + [Single("action"), Single("behind"), Single("ahead")], rowIndex, 0) == RowMerges(c5, rowIndex, 0)
  {
    var c6 := c5 + [Single("action")];
    AppendSingle(c5, "action", rowIndex);
    var c7 := c6 + [Single("behind")];
    AppendSingle(c6, "behind", rowIndex);
    AppendSingle(c7, "ahead", rowIndex);
    assert c7 + [Single("ahead")] == c5 + [Single("action"), Single("behind"), Single("ahead")];
  }

  /** The remaining cells add nine columns and the merges over columns 9-11 and 11-15. */
  lemma {:induction false} HeadRowEnd(c5: seq<SpanCell<string>>, rowIndex: int)
    requires |ExpandRow(c5)| == 6
    ensures |ExpandRow(c5 + HeadRowEndCells())| == 15
    ensures RowMerges(c5 + HeadRowEndCells(), rowIndex, 0) == RowMerges(c5, rowIndex, 0) + [
      GridRange(0, rowIndex, rowIndex + 1, 9, 11),
      GridRange(0, rowIndex, rowIndex + 1, 11, 15)]
  {
    var c8 := c5 + [Single("action"), Single("behind"), Single("ahead")];
    AppendCountTitles(c5, rowIndex);
    var c9 := c8 + [Spanning(2, "commits")];
    AppendSpanning(c8, 2, "commits", rowIndex);
    var c10 := c9 + [Spanning(4, "select cell for commit summary")];
    AppendSpanning(c9, 4, "select cell for commit summary", rowIndex);
    assert c10 == c5 + HeadRowEndCells();
  }

  /** The header row is 15 columns wide and yields merges over columns 4-6, 9-11 and 11-15. */
  lemma HeadRowLayout(rowIndex: int)
    ensures |ExpandRow(HeadRowCells())| == 15
    ensures RowMerges(HeadRowCells(), rowIndex, 0) == [
      GridRange(0, rowIndex, rowIndex + 1, 4, 6),
      GridRange(0, rowIndex, rowIndex + 1, 9, 11),
      GridRange(0, rowIndex, rowIndex + 1, 11, 15)]
  {
    HeadRowStart(rowIndex);
    HeadRowEnd(HeadRowStartCells(), rowIndex);
  }
}
