/**
 The layout object: its rectangle, the units of its columns and rows, and the
 operations that move it, resize it and walk over its cells (mgfc/gridlayout.c).
*/
module GridWalk {

  import opened GridSizes
  import G = GridLayout
  import opened Wrappers

  class GridLayout {
    var x: int
    var y: int
    var width: nat
    var height: nat
    const rowCnt: nat
    const colCnt: nat
    var rowHeight: array?<Unit>
    var colWidth: array?<Unit>

    ghost predicate Valid()
      reads this
    {
      && rowCnt > 0 && colCnt > 0
      && (rowHeight != null ==> rowHeight.Length == rowCnt)
      && (colWidth != null ==> colWidth.Length == colCnt)
      && (rowHeight != null && colWidth != null ==> rowHeight != colWidth)
    }

    ghost function Units(units: array?<Unit>): Option<seq<Unit>>
      reads units
    {
      if units == null then None else Some(units[..])
    }

    ghost function Rows(): (a: G.Axis)
      requires Valid()
      reads this, rowHeight
      ensures a.Valid()
    {
      G.Axis(y, height, rowCnt, Units(rowHeight))
    }

    ghost function Cols(): (a: G.Axis)
      requires Valid()
      reads this, colWidth
      ensures a.Valid()
    {
      G.Axis(x, width, colCnt, Units(colWidth))
    }

    /** The sizes of the units are those that the present width and height give. */
    ghost predicate Settled()
      requires Valid()
      reads this, rowHeight, colWidth
    {
      && (colWidth != null ==> Recalc(colWidth[..], width) == colWidth[..])
      && (rowHeight != null ==> Recalc(rowHeight[..], height) == rowHeight[..])
    }

    constructor (rows: nat, cols: nat)
      requires rows > 0 && cols > 0
      ensures Valid() && Settled() && rowCnt == rows && colCnt == cols
      ensures x == y == width == height == 0 && rowHeight == null && colWidth == null
    {
      rowCnt, colCnt := rows, cols;
      x, y, width, height := 0, 0, 0, 0;
      rowHeight, colWidth := null, null;
    }

    /** GridLayoutGetCellRect */
    method GetCellRect(row: int, col: int) returns (rect: Option<G.Rect>)
      requires Valid()
      ensures rect == if 0 <= row < rowCnt && 0 <= col < colCnt then Some(G.CellRect(Cols(), Rows(), row, col))
        else None
    {
      if row < 0 || row >= rowCnt || col < 0 || col >= colCnt { return None; }
      var left, top, w, h;
      if colWidth != null {
        left := GetPosFromUnit(colWidth, col);
        w := colWidth[col].currentSize;
      } else {
        w := width / colCnt;
        left := w * col;
      }
      if rowHeight != null {
        top := GetPosFromUnit(rowHeight, row);
        h := rowHeight[row].currentSize;
      } else {
        h := height / rowCnt;
        top := h * row;
      }
      rect := Some(G.Rect(x + left, y + top, x + left + w, y + top + h));
    }

    /** The source divides by the size of a unit where an axis has no units. */
    method GetRowColByPos(px: int, py: int) returns (hit: bool, row: int, col: int)
      requires Valid()
      requires rowHeight == null ==> height / rowCnt > 0
      requires colWidth == null ==> width / colCnt > 0
      ensures row == G.IndexAt(Rows(), py) && col == G.IndexAt(Cols(), px)
      ensures hit <==> 0 <= row < rowCnt && 0 <= col < colCnt
    {
      if rowHeight != null {
        row := G.GetIdxByPos(rowHeight, py - y);
      } else {
        row := Quot(py - y, height / rowCnt);
      }
      if colWidth != null {
        col := G.GetIdxByPos(colWidth, px - x);
      } else {
        col := Quot(px - x, width / colCnt);
      }
      hit := 0 <= row < rowCnt && 0 <= col < colCnt;
    }

    /** _grid_layout_deal_cell_with_position, with the calls of the handler noted down. */
    method DealCells() returns (deals: seq<G.Deal>)
      requires Valid()
      ensures deals == G.Deals(Cols(), Rows(), colCnt)
    {
      deals := [];
      var avgCol, avgRow := 0, 0;
      if colWidth == null { avgCol := width / colCnt; }
      if rowHeight == null { avgRow := height / rowCnt; }
      var left, col := x, 0;
      while col < colCnt
        invariant col <= colCnt && left == Cols().Lo(col)
        invariant deals == G.Deals(Cols(), Rows(), col)
      {
        Cols().LoStep(col);
        var right := left + if colWidth != null then colWidth[col].currentSize else avgCol;
        if colWidth == null || colWidth[col].kind != LUT_SPLITER {
          var column := DealColumn(col, left, right, avgRow);
          deals := deals + column;
        }
        left := right;
        col := col + 1;
      }
    }

    /** The inner loop of the walk. */
    method DealColumn(col: nat, left: int, right: int, avgRow: nat) returns (deals: seq<G.Deal>)
      requires Valid() && col < colCnt && left == Cols().Lo(col) && right == left + Cols().Size(col)
      requires rowHeight == null ==> avgRow == height / rowCnt
      ensures deals == G.ColumnDeals(Cols(), Rows(), col, rowCnt)
    {
      deals := [];
      var top, row := y, 0;
      while row < rowCnt
        invariant row <= rowCnt && top == Rows().Lo(row)
        invariant deals == G.ColumnDeals(Cols(), Rows(), col, row)
      {
        Rows().LoStep(row);
        var bottom := top + if rowHeight != null then rowHeight[row].currentSize else avgRow;
        if rowHeight == null || rowHeight[row].kind != LUT_SPLITER {
          deals := deals + [G.Deal(row, col, G.Rect(left, top, right, bottom))];
        }
        top := bottom;
        row := row + 1;
      }
    }

    /**
     SetGridLayoutRect.  Skipping the distribution when the size is the same is
     right because the sizes are settled and distributing again changes nothing.
    */
    method SetRect(nx: int, ny: int, nwidth: int, nheight: int) returns (deals: seq<G.Deal>)
      requires Valid() && Settled()
      modifies this`x, this`y, this`width, this`height, rowHeight, colWidth
      ensures Valid() && Settled()
      ensures nwidth <= 0 || nheight <= 0 ==>
        deals == [] && Cols() == old(Cols()) && Rows() == old(Rows())
      ensures nwidth > 0 && nheight > 0 ==>
        && x == nx && y == ny && width == nwidth && height == nheight
        && (colWidth != null ==> colWidth[..] == Recalc(old(colWidth[..]), nwidth))
        && (rowHeight != null ==> rowHeight[..] == Recalc(old(rowHeight[..]), nheight))
        && deals == G.Deals(Cols(), Rows(), colCnt)
    {
      if nwidth <= 0 || nheight <= 0 { return []; }
      x, y := nx, ny;
      if nwidth == width && nheight == height {
        deals := DealCells();
        return;
      }
      width, height := nwidth, nheight;
      if colWidth != null {
        RecalcTwice(colWidth[..], width);
        RecalcaUnits(colWidth, width);
      }
      if rowHeight != null {
        RecalcTwice(rowHeight[..], height);
        RecalcaUnits(rowHeight, height);
      }
      deals := DealCells();
    }

    /** GridLayoutSetColWidth; the units are made when the first one is set. */
    method SetColWidth(col: int, kind: int, logicSize: int)
      requires Valid() && Settled()
      modifies this`colWidth, colWidth
      ensures Valid() && Settled()
      ensures col < 0 || col >= colCnt ==> colWidth == old(colWidth) && Cols() == old(Cols())
      ensures 0 <= col < colCnt ==>
        colWidth != null && colWidth[..] ==
          Recalc(WithUnit(Given(old(Units(colWidth)), colCnt), col, kind, logicSize), width)
    {
      if col < 0 || col >= colCnt { return; }
      hide Recalc, WithUnit;
      if colWidth == null { colWidth := new Unit[colCnt](_ => EMPTY); }
      assert colWidth[..] == Given(old(Units(colWidth)), colCnt);
      SetUnit(colWidth, col, kind, logicSize, width);
    }

    method SetRowHeight(row: int, kind: int, logicSize: int)
      requires Valid() && Settled()
      modifies this`rowHeight, rowHeight
      ensures Valid() && Settled()
      ensures row < 0 || row >= rowCnt ==> rowHeight == old(rowHeight) && Rows() == old(Rows())
      ensures 0 <= row < rowCnt ==>
        rowHeight != null && rowHeight[..] ==
          Recalc(WithUnit(Given(old(Units(rowHeight)), rowCnt), row, kind, logicSize), height)
    {
      if row < 0 || row >= rowCnt { return; }
      hide Recalc, WithUnit;
      if rowHeight == null { rowHeight := new Unit[rowCnt](_ => EMPTY); }
      assert rowHeight[..] == Given(old(Units(rowHeight)), rowCnt);
      SetUnit(rowHeight, row, kind, logicSize, height);
    }
  }

  const EMPTY := Unit(LUT_PIXEL, 0, 0)

  /** A value stored in the signed field of 14 bits. */
  function Field14(v: int): int {
    if -8192 <= v < 8192 then v else (v + 8192) % 16384 - 8192
  }

  function Kind(kind: int): nat { if kind < 0 || kind > 3 then 0 else kind }

  /** The units of an axis; they are made when they are first needed. */
  function Given(units: Option<seq<Unit>>, n: nat): seq<Unit> {
    if units.Some? then units.value else seq(n, _ => EMPTY)
  }

  function WithUnit(units: seq<Unit>, i: nat, kind: int, logicSize: int): seq<Unit>
    requires i < |units|
  {
    units[i := units[i].(kind := Kind(kind), logicSize := Field14(logicSize))]
  }

  /**
   Setting a unit gives it the kind, or 0 for a kind that is none, and the size
   in 14 bits; the kinds and wanted sizes of the others stay.
  */
  lemma SetUnitSays(units: seq<Unit>, i: nat, kind: int, logicSize: int, width: int, k: nat)
    requires i < |units| && k < |units|
    ensures var u := Recalc(WithUnit(units, i, kind, logicSize), width)[k];
      if k == i then
        && u.kind == (if 0 <= kind <= 3 then kind else 0)
        && -0x2000 <= u.logicSize < 0x2000 && (u.logicSize - logicSize) % 0x4000 == 0
      else u.kind == units[k].kind && u.logicSize == units[k].logicSize
    ensures width <= 0 ==> Recalc(WithUnit(units, i, kind, logicSize), width)[k].currentSize == units[k].currentSize
  {
    OnlySizesChange(WithUnit(units, i, kind, logicSize), width, k);
    hide Recalc;
    Field14Is(logicSize);
  }

  lemma Field14Is(v: int)
    ensures -0x2000 <= Field14(v) < 0x2000 && (Field14(v) - v) % 0x4000 == 0
  {
    var q := (v + 0x2000) / 0x4000;
    assert v + 0x2000 == 0x4000 * q + (v + 0x2000) % 0x4000;
    if !(-0x2000 <= v < 0x2000) { assert Field14(v) - v == 0x4000 * (0 - q); }
  }

  /** Units that are made have no kind but pixels, and no size. */
  lemma MadeUnits(n: nat, i: nat)
    requires i < n
    ensures Given(None, n)[i] == Unit(0, 0, 0) && |Given(None, n)| == n
  {
  }

  /** The part of set_unit_size that follows the allocation. */
  method SetUnit(units: array<Unit>, i: nat, kind: int, logicSize: int, width: int)
    requires i < units.Length
    modifies units
    ensures units[..] == Recalc(WithUnit(old(units[..]), i, kind, logicSize), width)
    ensures Recalc(units[..], width) == units[..]
  {
    var kind := if kind < 0 || kind > 3 then 0 else kind;
    units[i] := units[i].(kind := kind, logicSize := Field14(logicSize));
    RecalcTwice(units[..], width);
    RecalcaUnits(units, width);
  }

  /**
   Two columns in a grid 110 wide: the first is set to 60, so the second gets 50.
   Narrowed to 50 and widened to 60 again, the grid has columns of 60 and 50.
  */
  lemma StaleSizeOverflows()
    ensures var made := Recalc(WithUnit(Given(None, 2), 0, LUT_PIXEL, 60), 110);
      Recalc(Recalc(made, 50), 60) == [Unit(LUT_PIXEL, 60, 60), Unit(LUT_PIXEL, 0, 50)]
  {
    var made := Recalc(WithUnit(Given(None, 2), 0, LUT_PIXEL, 60), 110);
    assert made == [Unit(LUT_PIXEL, 60, 60), Unit(LUT_PIXEL, 0, 50)] by {
      TwoUnits(WithUnit(Given(None, 2), 0, LUT_PIXEL, 60), 110);
    }
    var narrow := Recalc(made, 50);
    assert narrow == [Unit(LUT_PIXEL, 60, 50), Unit(LUT_PIXEL, 0, 50)] by { TwoUnits(made, 50); }
    TwoUnits(narrow, 60);
  }

  /** The distribution over a column of 60 pixels and an automatic one. */
  lemma TwoUnits(units: seq<Unit>, width: nat)
    requires |units| == 2 && 0 < width <= 110
    requires units[0].kind == units[1].kind == LUT_PIXEL && units[0].logicSize == 60 && units[1].logicSize == 0
    ensures Recalc(units, width) ==
      if width <= 60 then [units[0].(currentSize := width), units[1]]
      else [units[0].(currentSize := 60), units[1].(currentSize := width - 60)]
  {
    assert Left(units, width, 0) == width;
    assert Left(units, width, 1) == if width <= 60 then 0 else width - 60;
    assert Left(units, width, 2) == Left(units, width, 1);
    assert Autos(units, 0) == 0 && Autos(units, 1) == 0 && Autos(units, 2) == 1;
  }
}
