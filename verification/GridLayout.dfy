/**
 A grid of cells: its rectangles, the walk over its cells and the cell under a
 point (mgfc/gridlayout.c).  Columns and rows are alike, so each is an axis.
*/
module GridLayout {

  import opened GridSizes
  import opened Wrappers

  /** Where an axis begins, its length, and its units; without units they are all of the same size. */
  datatype Axis = Axis(origin: int, length: int, count: nat, units: Option<seq<Unit>>)
  {
    ghost predicate Valid() {
      count > 0 && length >= 0 && (units.Some? ==> |units.value| == count)
    }

    function Even(): nat
      requires Valid()
    {
      length / count
    }

    predicate Splitter(i: nat)
      requires Valid() && i < count
    {
      units.Some? && units.value[i].Splitter()
    }

    function Size(i: nat): nat
      requires Valid() && i < count
    {
      if units.Some? then units.value[i].currentSize else Even()
    }

    /** Where unit i begins, by the formula of GridLayoutGetCellRect. */
    function Lo(i: nat): int
      requires Valid() && i <= count
    {
      origin + if units.Some? then Pos(units.value, i) else Even() * i
    }

    /** Each unit begins where the one before it ends. */
    lemma LoStep(i: nat)
      requires Valid() && i < count
      ensures Lo(i + 1) == Lo(i) + Size(i)
    {
    }

    lemma EvenShares()
      requires Valid()
      ensures count * Even() <= length < count * Even() + count
    {
      assert length == count * (length / count) + length % count;
    }

    lemma {:induction false} LoGrows(i: nat, k: nat)
      requires Valid() && i <= k <= count
      ensures Lo(i) <= Lo(k)
      decreases k
    {
      if i == k {
      } else {
        LoGrows(i, k - 1);
        LoStep(k - 1);
      }
    }
  }

  datatype Rect = Rect(left: int, top: int, right: int, bottom: int)
  {
    /** The points that the hit test gives to a cell with explicit sizes. */
    predicate Holds(x: int, y: int) { left < x <= right && top < y <= bottom }
  }

  function CellRect(cols: Axis, rows: Axis, row: nat, col: nat): Rect
    requires cols.Valid() && rows.Valid() && row < rows.count && col < cols.count
  {
    Rect(cols.Lo(col), rows.Lo(row), cols.Lo(col) + cols.Size(col), rows.Lo(row) + rows.Size(row))
  }

  /** One call of the handler. */
  datatype Deal = Deal(row: nat, col: nat, rect: Rect)

  // ------------------------------------------------------------ calls of a walk

  /** The calls for the first n rows of a column. */
  function ColumnDeals(cols: Axis, rows: Axis, col: nat, n: nat): seq<Deal>
    requires cols.Valid() && rows.Valid() && n <= rows.count && col < cols.count
  {
    if n == 0 then []
    else if rows.Splitter(n - 1) then ColumnDeals(cols, rows, col, n - 1)
    else ColumnDeals(cols, rows, col, n - 1) + [Deal(n - 1, col, CellRect(cols, rows, n - 1, col))]
  }

  function Deals(cols: Axis, rows: Axis, n: nat): seq<Deal>
    requires cols.Valid() && rows.Valid() && n <= cols.count
  {
    if n == 0 then []
    else if cols.Splitter(n - 1) then Deals(cols, rows, n - 1)
    else Deals(cols, rows, n - 1) + ColumnDeals(cols, rows, n - 1, rows.count)
  }

  predicate Dealt(cols: Axis, rows: Axis, row: nat, col: nat)
    requires cols.Valid() && rows.Valid()
  {
    col < cols.count && row < rows.count && !cols.Splitter(col) && !rows.Splitter(row)
  }

  /** Calls in the order of columns, and of rows within a column. */
  predicate Before(a: Deal, b: Deal) { a.col < b.col || (a.col == b.col && a.row < b.row) }

  lemma {:induction false} ColumnDealsOnce(cols: Axis, rows: Axis, col: nat, n: nat)
    requires cols.Valid() && rows.Valid() && n <= rows.count && col < cols.count
    ensures var ds := ColumnDeals(cols, rows, col, n);
      && (forall d :: d in ds <==>
        d.col == col && d.row < n && !rows.Splitter(d.row) && d.rect == CellRect(cols, rows, d.row, col))
      && (forall i, k :: 0 <= i < k < |ds| ==> Before(ds[i], ds[k]))
  {
    if n == 0 {
    } else {
      ColumnDealsOnce(cols, rows, col, n - 1);
      var before := ColumnDeals(cols, rows, col, n - 1);
      assert forall i :: 0 <= i < |before| ==> before[i] in before;
    }
  }

  lemma {:induction false} DealsTo(cols: Axis, rows: Axis, n: nat)
    requires cols.Valid() && rows.Valid() && n <= cols.count
    ensures var ds := Deals(cols, rows, n);
      && (forall d :: d in ds <==>
        d.col < n && Dealt(cols, rows, d.row, d.col) && d.rect == CellRect(cols, rows, d.row, d.col))
      && (forall i, k :: 0 <= i < k < |ds| ==> Before(ds[i], ds[k]))
  {
    hide CellRect, ColumnDeals;
    if n == 0 {
    } else {
      DealsTo(cols, rows, n - 1);
      if !cols.Splitter(n - 1) {
        ColumnDealsOnce(cols, rows, n - 1, rows.count);
        var before, column := Deals(cols, rows, n - 1), ColumnDeals(cols, rows, n - 1, rows.count);
        assert forall i :: 0 <= i < |before| ==> before[i] in before;
        assert forall i :: 0 <= i < |column| ==> column[i] in column;
      }
    }
  }

  /**
   The walk deals with every cell that is not in a splitter once, column by
   column, with the rectangle of the direct formula.
  */
  lemma WalkDealsOnce(cols: Axis, rows: Axis)
    requires cols.Valid() && rows.Valid()
    ensures var ds := Deals(cols, rows, cols.count);
      && (forall row, col :: Dealt(cols, rows, row, col) <==>
        exists i :: 0 <= i < |ds| && ds[i].row == row && ds[i].col == col)
      && (forall i :: 0 <= i < |ds| ==>
        Dealt(cols, rows, ds[i].row, ds[i].col) && ds[i].rect == CellRect(cols, rows, ds[i].row, ds[i].col))
      && (forall i, k :: 0 <= i < k < |ds| ==> Before(ds[i], ds[k]))
  {
    var ds := Deals(cols, rows, cols.count);
    DealsTo(cols, rows, cols.count);
    forall i | 0 <= i < |ds|
      ensures Dealt(cols, rows, ds[i].row, ds[i].col) && ds[i].rect == CellRect(cols, rows, ds[i].row, ds[i].col) {
      assert ds[i] in ds;
    }
    forall row, col | Dealt(cols, rows, row, col)
      ensures exists i :: 0 <= i < |ds| && ds[i].row == row && ds[i].col == col {
      assert Deal(row, col, CellRect(cols, rows, row, col)) in ds;
    }
  }

  /** A cell is dealt with exactly when neither its column nor its row is a splitter (2). */
  lemma DealtExactlyWhen(cols: Axis, rows: Axis, row: nat, col: nat)
    requires cols.Valid() && rows.Valid() && row < rows.count && col < cols.count
    ensures Dealt(cols, rows, row, col) <==>
      && (cols.units.Some? ==> cols.units.value[col].kind != 2)
      && (rows.units.Some? ==> rows.units.value[row].kind != 2)
  {
  }

  /**
   The cells lie edge to edge from the corner of the grid on.  They are as wide
   as the sizes of the units say; without units they share the length evenly.
  */
  lemma CellsTile(cols: Axis, rows: Axis, row: nat, col: nat)
    requires cols.Valid() && rows.Valid() && row < rows.count && col < cols.count
    ensures var r := CellRect(cols, rows, row, col); var w, h := r.right - r.left, r.bottom - r.top;
      && (col == 0 ==> r.left == cols.origin) && (row == 0 ==> r.top == rows.origin)
      && (col + 1 < cols.count ==>
            var next := CellRect(cols, rows, row, col + 1);
            r.right == next.left && r.top == next.top && r.bottom == next.bottom)
      && (row + 1 < rows.count ==>
            var next := CellRect(cols, rows, row + 1, col);
            r.bottom == next.top && r.left == next.left && r.right == next.right)
      && SizeFits(cols, col, w) && SizeFits(rows, row, h)
  {
    cols.LoStep(col);
    rows.LoStep(row);
    cols.EvenShares();
    rows.EvenShares();
  }

  /** The size of the unit, or an even share of the axis, rounded down. */
  predicate SizeFits(a: Axis, i: nat, size: int)
    requires a.Valid() && i < a.count
  {
    if a.units.Some? then size == a.units.value[i].currentSize
    else a.count * size <= a.length < a.count * size + a.count
  }

  /** Two cells never share a point. */
  lemma CellsAreDisjoint(cols: Axis, rows: Axis, row: nat, col: nat, row': nat, col': nat, x: int, y: int)
    requires cols.Valid() && rows.Valid()
    requires row < rows.count && row' < rows.count && col < cols.count && col' < cols.count
    requires CellRect(cols, rows, row, col).Holds(x, y) && CellRect(cols, rows, row', col').Holds(x, y)
    ensures row == row' && col == col'
  {
    UnitIsUnique(cols, col, col', x);
    UnitIsUnique(rows, row, row', y);
  }

  lemma UnitIsUnique(a: Axis, i: nat, k: nat, p: int)
    requires a.Valid() && i < a.count && k < a.count
    requires a.Lo(i) < p <= a.Lo(i) + a.Size(i) && a.Lo(k) < p <= a.Lo(k) + a.Size(k)
    ensures i == k
  {
    a.LoStep(i);
    a.LoStep(k);
    if i < k { a.LoGrows(i + 1, k); }
    if k < i { a.LoGrows(k + 1, i); }
  }

  // ------------------------------------------------------------------- hit test

  /** get_idx_by_pos from unit i on, with the sizes before it added up. */
  function IdxByPos(units: seq<Unit>, pos: int, i: nat := 0): (r: int)
    requires i <= |units|
    ensures -1 <= r < |units|
    decreases |units| - i
  {
    if i < |units| && Pos(units, i) < pos then IdxByPos(units, pos, i + 1)
    else if Pos(units, i) < pos then -1 else i - 1
  }

  method GetIdxByPos(units: array<Unit>, pos: int) returns (idx: int)
    ensures idx == IdxByPos(units[..], pos)
  {
    var i, w := 0, 0;
    while i < units.Length && pos > w
      invariant i <= units.Length && w == Pos(units[..], i)
      invariant IdxByPos(units[..], pos, i) == IdxByPos(units[..], pos)
    {
      w := w + units[i].currentSize;
      i := i + 1;
    }
    idx := if pos > w then -1 else i - 1;
  }

  /** A position belongs to the unit that begins before it and reaches up to it; without one the answer is -1. */
  lemma {:induction false} IdxIsUnit(units: seq<Unit>, pos: int, i: nat, k: nat)
    requires i <= |units| && k < |units| && (i > 0 ==> Pos(units, i - 1) < pos) && (i == 0 || i <= k + 1)
    ensures IdxByPos(units, pos, i) == k <==> Pos(units, k) < pos <= Pos(units, k + 1)
    decreases |units| - i
  {
    if i < |units| && Pos(units, i) < pos {
      if i <= k {
        IdxIsUnit(units, pos, i + 1, k);
      } else {
        IdxPasses(units, pos, i + 1);
      }
    } else if i <= k {
      PosGrows(units, i, k);
    }
  }

  lemma {:induction false} IdxPasses(units: seq<Unit>, pos: int, i: nat)
    requires 0 < i <= |units|
    ensures IdxByPos(units, pos, i) == -1 || IdxByPos(units, pos, i) >= i - 1
    decreases |units| - i
  {
    if i == |units| || pos <= Pos(units, i) {
    } else {
      IdxPasses(units, pos, i + 1);
    }
  }

  /** The index of a point on an axis. */
  function IndexAt(a: Axis, p: int): int
    requires a.Valid() && (a.units.Some? || a.Even() > 0)
  {
    if a.units.Some? then IdxByPos(a.units.value, p - a.origin) else Quot(p - a.origin, a.Even())
  }

  lemma SizedHit(a: Axis, p: int, k: nat)
    requires a.Valid() && a.units.Some? && k < a.count
    ensures IndexAt(a, p) == k <==> a.Lo(k) < p <= a.Lo(k) + a.Size(k)
  {
    IdxIsUnit(a.units.value, p - a.origin, 0, k);
  }

  /** With explicit sizes the hit test is the inverse of the rectangles. */
  lemma HitIsInverse(cols: Axis, rows: Axis, x: int, y: int, row: nat, col: nat)
    requires cols.Valid() && rows.Valid() && cols.units.Some? && rows.units.Some?
    requires row < rows.count && col < cols.count
    ensures IndexAt(rows, y) == row && IndexAt(cols, x) == col <==> CellRect(cols, rows, row, col).Holds(x, y)
  {
    SizedHit(cols, x, col);
    SizedHit(rows, y, row);
  }

  lemma QuotientIs(q: int, n: nat, k: nat)
    requires n > 0
    ensures Quot(q, n) == k <==> (if k == 0 then 0 - n < q < n else n * k <= q < n * k + n)
  {
    hide Div;
    DivisionIs(Abs(q), n, k);
    DivisionIs(Abs(q), n, 0);
    ProductIsNatural(n, k);
    if q >= 0 {
      assert Abs(q) == q;
    } else {
      assert Quot(q, n) <= 0;
    }
  }

  lemma DivisionIs(q: nat, n: nat, k: nat)
    requires n > 0
    ensures Div(q, n) == k <==> n * k <= q < n * k + n
  {
    var m := q / n;
    assert q == n * m + q % n;
    if m < k {
      ProductIsNatural(n, k - m - 1);
      assert n * k == n * m + n + n * (k - m - 1);
    } else if k < m {
      ProductIsNatural(n, m - k - 1);
      assert n * m == n * k + n + n * (m - k - 1);
    }
  }

  /**
   Without units the unit begins at its first position and ends before the next,
   and the first one also takes positions up to one unit before the axis begins.
  */
  lemma EvenHit(a: Axis, p: int, k: nat)
    requires a.Valid() && a.units == None && a.Even() > 0 && k < a.count
    ensures IndexAt(a, p) == k <==> a.Lo(k) - (if k == 0 then a.Size(0) - 1 else 0) <= p < a.Lo(k) + a.Size(k)
  {
    QuotientIs(p - a.origin, a.Even(), k);
  }
}
