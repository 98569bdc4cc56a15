/**
 * The level's piece table as a value: a flat sequence of optional piece
 * handles, indexed row-major as `col + row * cols`, and the specification of
 * what the inspector's resize does to it (which cells are kept, which pieces
 * are destroyed).
 */
module PieceTable {
  import opened Wrappers
  import opened Arithmetic

  /** An opaque handle to a placed level piece (a reference in the source). */
  type PieceId = nat

  type Table = seq<Option<PieceId>>

  /** The row-major index of cell (col, row) in a table `cols` cells wide. */
  function CellIndex(cols: int, col: int, row: int): int
  {
    col + row * cols
  }

  /** The handle stored at cell (col, row); None when that cell is not in `a`. */
  function At(a: Table, cols: int, col: int, row: int): Option<PieceId>
  {
    var i := CellIndex(cols, col, row);
    if 0 <= i < |a| then a[i] else None
  }

  // ---------------------------------------------------------------------------
  // Row-major indexing
  // ---------------------------------------------------------------------------

  /** Every in-bounds cell has an index inside the table of `cols * rows` cells. */
  lemma CellIndexInRange(cols: int, rows: int, col: int, row: int)
    requires 0 <= col < cols && 0 <= row < rows
    ensures 0 <= CellIndex(cols, col, row) < cols * rows
  {
    MulMonotone(row, rows - 1, cols);
    MulMonotone(0, row, cols);
  }

  /** Division and remainder by the width recover the column and the row. */
  lemma CellIndexDecompose(cols: int, col: int, row: int)
    requires 0 <= col < cols && 0 <= row
    ensures CellIndex(cols, col, row) % cols == col
    ensures CellIndex(cols, col, row) / cols == row
  {
    DivModUnique(CellIndex(cols, col, row), cols, row, col);
  }

  /** Two in-bounds cells share an index only when they are the same cell. */
  lemma CellIndexInjective(cols: int, c1: int, r1: int, c2: int, r2: int)
    requires 0 <= c1 < cols && 0 <= r1 && 0 <= c2 < cols && 0 <= r2
    requires CellIndex(cols, c1, r1) == CellIndex(cols, c2, r2)
    ensures c1 == c2 && r1 == r2
  {
    CellIndexDecompose(cols, c1, r1);
    CellIndexDecompose(cols, c2, r2);
  }

  /** Every index of a `cols * rows` table is the index of exactly one in-bounds cell. */
  lemma IndexIsCell(cols: int, rows: int, i: int)
    requires 0 <= rows && 0 <= i < cols * rows
    ensures cols > 0
    ensures 0 <= i % cols < cols && 0 <= i / cols < rows
    ensures CellIndex(cols, i % cols, i / cols) == i
  {
    if cols <= 0 {
      MulMonotone(cols, 0, rows);
      assert false;
    }
    if i / cols >= rows {
      MulMonotone(rows, i / cols, cols);
      assert false;
    }
  }

  // ---------------------------------------------------------------------------
  // Resize: the kept cells
  // ---------------------------------------------------------------------------

  /**
   * The table a resize from oldCols x oldRows to newCols x newRows produces:
   * a cell that exists in both grids keeps its handle, every other cell is empty.
   */
  function Resized(a: Table, oldCols: nat, oldRows: nat, newCols: int, newRows: int): Table
    requires newCols * newRows >= 0
  {
    seq(newCols * newRows, i requires 0 <= i < newCols * newRows =>
      if newCols <= 0 then None  // both dimensions negative: no cell is kept
      else
        var col, row := i % newCols, i / newCols;
        if col < oldCols && row < oldRows then At(a, oldCols, col, row) else None)
  }

  /**
   * Cell (col, row) of the resized table holds the old handle of (col, row)
   * when that cell existed before, and is empty otherwise.
   */
  lemma ResizedCell(a: Table, oldCols: nat, oldRows: nat, newCols: nat, newRows: nat, col: int, row: int)
    requires 0 <= col < newCols && 0 <= row < newRows
    ensures |Resized(a, oldCols, oldRows, newCols, newRows)| == newCols * newRows
    ensures 0 <= CellIndex(newCols, col, row) < newCols * newRows
    ensures At(Resized(a, oldCols, oldRows, newCols, newRows), newCols, col, row)
         == if col < oldCols && row < oldRows then At(a, oldCols, col, row) else None
  {
    CellIndexInRange(newCols, newRows, col, row);
    CellIndexDecompose(newCols, col, row);
  }

  /** Resizing to the current dimensions gives back the same table and destroys nothing. */
  lemma ResizedSameDimensions(a: Table, cols: nat, rows: nat)
    requires |a| == cols * rows
    ensures Resized(a, cols, rows, cols, rows) == a
    ensures Discarded(a, cols, rows, cols, rows) == []
  {
    GrowingDiscardsNothing(a, cols, rows, cols, rows);
    var r := Resized(a, cols, rows, cols, rows);
    forall i | 0 <= i < |a|
      ensures r[i] == a[i]
    {
      IndexIsCell(cols, rows, i);
    }
  }

  // ---------------------------------------------------------------------------
  // Resize: the destroyed pieces, in the order the source visits them
  // (columns outermost, rows innermost)
  // ---------------------------------------------------------------------------

  /** The cell (col, row) is outside the new grid and its old handle is `p`. */
  predicate DiscardsAt(a: Table, oldCols: nat, newCols: int, newRows: int, col: int, row: int, p: PieceId)
  {
    !(col < newCols && row < newRows) && At(a, oldCols, col, row) == Some(p)
  }

  /** The piece destroyed at the visit of cell (col, row), if any. */
  function DiscardedAt(a: Table, oldCols: nat, newCols: int, newRows: int, col: int, row: int): seq<PieceId>
  {
    if col < newCols && row < newRows then []
    else match At(a, oldCols, col, row)
      case None => []
      case Some(p) => [p]
  }

  /** The pieces destroyed while visiting rows 0 .. rows-1 of column `col`. */
  function DiscardedInColumn(a: Table, oldCols: nat, newCols: int, newRows: int, col: int, rows: nat): seq<PieceId>
  {
    if rows == 0 then []
    else DiscardedInColumn(a, oldCols, newCols, newRows, col, rows - 1)
         + DiscardedAt(a, oldCols, newCols, newRows, col, rows - 1)
  }

  /** The pieces destroyed while visiting columns 0 .. cols-1 of the old grid. */
  function DiscardedColumns(a: Table, oldCols: nat, oldRows: nat, newCols: int, newRows: int, cols: nat): seq<PieceId>
  {
    if cols == 0 then []
    else DiscardedColumns(a, oldCols, oldRows, newCols, newRows, cols - 1)
         + DiscardedInColumn(a, oldCols, newCols, newRows, cols - 1, oldRows)
  }

  /** Every piece a resize from oldCols x oldRows to newCols x newRows destroys, in visiting order. */
  function Discarded(a: Table, oldCols: nat, oldRows: nat, newCols: int, newRows: int): seq<PieceId>
  {
    DiscardedColumns(a, oldCols, oldRows, newCols, newRows, oldCols)
  }

  lemma {:induction false} DiscardedInColumnMembers(a: Table, oldCols: nat, newCols: nat, newRows: nat, col: int, rows: nat, p: PieceId)
    ensures p in DiscardedInColumn(a, oldCols, newCols, newRows, col, rows)
        <==> exists row :: 0 <= row < rows && DiscardsAt(a, oldCols, newCols, newRows, col, row, p)
  {
    if rows > 0 {
      DiscardedInColumnMembers(a, oldCols, newCols, newRows, col, rows - 1, p);
      if DiscardsAt(a, oldCols, newCols, newRows, col, rows - 1, p) {
        assert p in DiscardedAt(a, oldCols, newCols, newRows, col, rows - 1);
      }
    }
  }

  lemma {:induction false} DiscardedColumnsMembers(a: Table, oldCols: nat, oldRows: nat, newCols: nat, newRows: nat, cols: nat, p: PieceId)
    ensures p in DiscardedColumns(a, oldCols, oldRows, newCols, newRows, cols)
        <==> exists col, row :: 0 <= col < cols && 0 <= row < oldRows && DiscardsAt(a, oldCols, newCols, newRows, col, row, p)
  {
    if cols > 0 {
      DiscardedColumnsMembers(a, oldCols, oldRows, newCols, newRows, cols - 1, p);
      DiscardedInColumnMembers(a, oldCols, newCols, newRows, cols - 1, oldRows, p);
      if p in DiscardedColumns(a, oldCols, oldRows, newCols, newRows, cols) {
        if p in DiscardedColumns(a, oldCols, oldRows, newCols, newRows, cols - 1) {
          var col, row :| 0 <= col < cols - 1 && 0 <= row < oldRows && DiscardsAt(a, oldCols, newCols, newRows, col, row, p);
          assert 0 <= col < cols;
        } else {
          var row :| 0 <= row < oldRows && DiscardsAt(a, oldCols, newCols, newRows, cols - 1, row, p);
          assert 0 <= cols - 1 < cols;
        }
      }
      if exists col, row :: 0 <= col < cols && 0 <= row < oldRows && DiscardsAt(a, oldCols, newCols, newRows, col, row, p) {
        var col, row :| 0 <= col < cols && 0 <= row < oldRows && DiscardsAt(a, oldCols, newCols, newRows, col, row, p);
        if col == cols - 1 {
          assert p in DiscardedInColumn(a, oldCols, newCols, newRows, cols - 1, oldRows);
        } else {
          assert p in DiscardedColumns(a, oldCols, oldRows, newCols, newRows, cols - 1);
        }
      }
    }
  }

  /**
   * A piece is destroyed by the resize exactly when it occupies an old cell
   * that lies outside the new dimensions.
   */
  lemma DiscardedMembers(a: Table, oldCols: nat, oldRows: nat, newCols: nat, newRows: nat, p: PieceId)
    ensures p in Discarded(a, oldCols, oldRows, newCols, newRows)
        <==> exists col, row :: 0 <= col < oldCols && 0 <= row < oldRows && DiscardsAt(a, oldCols, newCols, newRows, col, row, p)
  {
    DiscardedColumnsMembers(a, oldCols, oldRows, newCols, newRows, oldCols, p);
  }

  lemma {:induction false} DiscardedInColumnEmpty(a: Table, oldCols: nat, newCols: nat, newRows: nat, col: int, rows: nat)
    requires col < newCols && rows <= newRows
    ensures DiscardedInColumn(a, oldCols, newCols, newRows, col, rows) == []
  {
    if rows > 0 {
      DiscardedInColumnEmpty(a, oldCols, newCols, newRows, col, rows - 1);
    }
  }

  lemma {:induction false} DiscardedColumnsEmpty(a: Table, oldCols: nat, oldRows: nat, newCols: nat, newRows: nat, cols: nat)
    requires cols <= newCols && oldRows <= newRows
    ensures DiscardedColumns(a, oldCols, oldRows, newCols, newRows, cols) == []
  {
    if cols > 0 {
      DiscardedColumnsEmpty(a, oldCols, oldRows, newCols, newRows, cols - 1);
      DiscardedInColumnEmpty(a, oldCols, newCols, newRows, cols - 1, oldRows);
    }
  }

  /** A resize that shrinks neither dimension destroys nothing. */
  lemma GrowingDiscardsNothing(a: Table, oldCols: nat, oldRows: nat, newCols: nat, newRows: nat)
    requires oldCols <= newCols && oldRows <= newRows
    ensures Discarded(a, oldCols, oldRows, newCols, newRows) == []
  {
    DiscardedColumnsEmpty(a, oldCols, oldRows, newCols, newRows, oldCols);
  }

  // ---------------------------------------------------------------------------
  // Resize: the walk as it happens, which stops with an exception at the first
  // cell whose index is past the end of the table
  // ---------------------------------------------------------------------------

  /** What a walk over the old cells destroyed, and whether it reached its end. */
  datatype Walk = Walk(destroyed: seq<PieceId>, completed: bool)

  /** A loop bound: a negative dimension runs its loop zero times, like zero. */
  function Clamp(n: int): (m: nat)
    ensures n >= 0 ==> m == n
    ensures n < 0 ==> m == 0
  {
    if n < 0 then 0 else n
  }

  /** Visiting rows 0 .. rows-1 of column `col`, stopping at the first cell the table does not reach. */
  function WalkColumn(a: Table, oldCols: nat, newCols: int, newRows: int, col: int, rows: nat): Walk
  {
    if rows == 0 then Walk([], true)
    else
      var w := WalkColumn(a, oldCols, newCols, newRows, col, rows - 1);
      if !w.completed then w
      else if CellIndex(oldCols, col, rows - 1) >= |a| then Walk(w.destroyed, false)
      else Walk(w.destroyed + DiscardedAt(a, oldCols, newCols, newRows, col, rows - 1), true)
  }

  /** Visiting columns 0 .. cols-1 of the old grid, stopping at the first cell the table does not reach. */
  function WalkColumns(a: Table, oldCols: nat, oldRows: nat, newCols: int, newRows: int, cols: nat): Walk
  {
    if cols == 0 then Walk([], true)
    else
      var w := WalkColumns(a, oldCols, oldRows, newCols, newRows, cols - 1);
      if !w.completed then w
      else
        var c := WalkColumn(a, oldCols, newCols, newRows, cols - 1, oldRows);
        Walk(w.destroyed + c.destroyed, c.completed)
  }

  /**
   * The resize of a level of oldCols x oldRows to newCols x newRows, as the
   * walk it performs: a negative number of new cells fails the allocation
   * before any cell is visited; otherwise every old cell is visited in order
   * until one lies past the end of the table.
   */
  function ResizeWalk(a: Table, oldCols: int, oldRows: int, newCols: int, newRows: int): Walk
  {
    if newCols * newRows < 0 then Walk([], false)
    else WalkColumns(a, Clamp(oldCols), Clamp(oldRows), newCols, newRows, Clamp(oldCols))
  }

  lemma {:induction false} WalkColumnSpec(a: Table, oldCols: nat, newCols: int, newRows: int, col: int, rows: nat)
    ensures WalkColumn(a, oldCols, newCols, newRows, col, rows).completed
        <==> forall row :: 0 <= row < rows ==> CellIndex(oldCols, col, row) < |a|
    ensures WalkColumn(a, oldCols, newCols, newRows, col, rows).completed ==>
              WalkColumn(a, oldCols, newCols, newRows, col, rows).destroyed
              == DiscardedInColumn(a, oldCols, newCols, newRows, col, rows)
    ensures WalkColumn(a, oldCols, newCols, newRows, col, rows).destroyed
            <= DiscardedInColumn(a, oldCols, newCols, newRows, col, rows)
  {
    if rows > 0 {
      WalkColumnSpec(a, oldCols, newCols, newRows, col, rows - 1);
      var w := WalkColumn(a, oldCols, newCols, newRows, col, rows - 1);
      var d := DiscardedInColumn(a, oldCols, newCols, newRows, col, rows - 1);
      var t := DiscardedAt(a, oldCols, newCols, newRows, col, rows - 1);
      assert d <= d + t;
      if !w.completed {
        var row :| 0 <= row < rows - 1 && CellIndex(oldCols, col, row) >= |a|;
        assert 0 <= row < rows;
      }
    }
  }

  lemma {:induction false} WalkColumnsSpec(a: Table, oldCols: nat, oldRows: nat, newCols: int, newRows: int, cols: nat)
    ensures WalkColumns(a, oldCols, oldRows, newCols, newRows, cols).completed
        <==> forall col, row :: 0 <= col < cols && 0 <= row < oldRows ==> CellIndex(oldCols, col, row) < |a|
    ensures WalkColumns(a, oldCols, oldRows, newCols, newRows, cols).completed ==>
              WalkColumns(a, oldCols, oldRows, newCols, newRows, cols).destroyed
              == DiscardedColumns(a, oldCols, oldRows, newCols, newRows, cols)
    ensures WalkColumns(a, oldCols, oldRows, newCols, newRows, cols).destroyed
            <= DiscardedColumns(a, oldCols, oldRows, newCols, newRows, cols)
  {
    if cols > 0 {
      WalkColumnsSpec(a, oldCols, oldRows, newCols, newRows, cols - 1);
      WalkColumnSpec(a, oldCols, newCols, newRows, cols - 1, oldRows);
      var w := WalkColumns(a, oldCols, oldRows, newCols, newRows, cols - 1);
      var d := DiscardedColumns(a, oldCols, oldRows, newCols, newRows, cols - 1);
      var t := DiscardedInColumn(a, oldCols, newCols, newRows, cols - 1, oldRows);
      assert d <= d + t;
      if !w.completed {
        var col, row :| 0 <= col < cols - 1 && 0 <= row < oldRows && CellIndex(oldCols, col, row) >= |a|;
        assert 0 <= col < cols;
      } else {
        var c := WalkColumn(a, oldCols, newCols, newRows, cols - 1, oldRows);
        assert w.destroyed + c.destroyed <= d + t by {
          assert w.destroyed == d;
        }
        if !c.completed {
          var row :| 0 <= row < oldRows && CellIndex(oldCols, cols - 1, row) >= |a|;
          assert 0 <= cols - 1 < cols;
        }
      }
    }
  }

  /** The last cell visited, (cols - 1, rows - 1), has index cols * rows - 1. */
  lemma LastCellIndex(cols: int, rows: int)
    ensures CellIndex(cols, cols - 1, rows - 1) == cols * rows - 1
  {
    calc {
      CellIndex(cols, cols - 1, rows - 1);
      cols - 1 + (rows - 1) * cols;
      cols - 1 + rows * cols - cols;
    }
  }

  /**
   * The resize completes exactly when the number of new cells is not
   * negative and the table reaches every old cell; a completed walk destroys
   * exactly the pieces Discarded names, and a walk cut short destroys a
   * prefix of them.
   */
  lemma ResizeWalkSpec(a: Table, oldCols: int, oldRows: int, newCols: int, newRows: int)
    ensures ResizeWalk(a, oldCols, oldRows, newCols, newRows).completed
        <==> newCols * newRows >= 0 && Clamp(oldCols) * Clamp(oldRows) <= |a|
    ensures ResizeWalk(a, oldCols, oldRows, newCols, newRows).completed ==>
              ResizeWalk(a, oldCols, oldRows, newCols, newRows).destroyed
              == Discarded(a, Clamp(oldCols), Clamp(oldRows), newCols, newRows)
    ensures ResizeWalk(a, oldCols, oldRows, newCols, newRows).destroyed
            <= Discarded(a, Clamp(oldCols), Clamp(oldRows), newCols, newRows)
  {
    var cols, rows := Clamp(oldCols), Clamp(oldRows);
    WalkColumnsSpec(a, cols, rows, newCols, newRows, cols);
    if cols * rows <= |a| {
      forall col, row | 0 <= col < cols && 0 <= row < rows
        ensures CellIndex(cols, col, row) < |a|
      {
        CellIndexInRange(cols, rows, col, row);
      }
    } else {
      assert cols > 0 && rows > 0;
      LastCellIndex(cols, rows);
      assert CellIndex(cols, cols - 1, rows - 1) >= |a|;
    }
  }

  // ---------------------------------------------------------------------------
  // Resize: no piece is lost, duplicated, or both kept and destroyed
  // ---------------------------------------------------------------------------

  /** No handle is stored in two different cells. */
  predicate DistinctHandles(a: Table)
  {
    forall i, j :: 0 <= i < |a| && 0 <= j < |a| && i != j && a[i].Some? ==> a[i] != a[j]
  }

  predicate NoDuplicates(s: seq<PieceId>)
  {
    forall i, j :: 0 <= i < j < |s| ==> s[i] != s[j]
  }

  lemma SameHandleSameCell(a: Table, cols: nat, rows: nat, c1: int, r1: int, c2: int, r2: int)
    requires DistinctHandles(a) && cols * rows <= |a|
    requires 0 <= c1 < cols && 0 <= r1 < rows && 0 <= c2 < cols && 0 <= r2 < rows
    requires At(a, cols, c1, r1).Some? && At(a, cols, c1, r1) == At(a, cols, c2, r2)
    ensures c1 == c2 && r1 == r2
  {
    CellIndexInRange(cols, rows, c1, r1);
    CellIndexInRange(cols, rows, c2, r2);
    CellIndexInjective(cols, c1, r1, c2, r2);
  }

  lemma NoDuplicatesAppend(s: seq<PieceId>, t: seq<PieceId>)
    requires NoDuplicates(s) && NoDuplicates(t)
    requires forall p :: p in s ==> p !in t
    ensures NoDuplicates(s + t)
  {
    var u := s + t;
    forall i, j | 0 <= i < j < |u|
      ensures u[i] != u[j]
    {
      if i < |s| && |s| <= j {
        assert u[i] in s && u[j] == t[j - |s|];
      }
    }
  }

  lemma {:induction false} DiscardedInColumnNoDuplicates(a: Table, oldCols: nat, oldRows: nat, newCols: nat, newRows: nat, col: int, rows: nat)
    requires DistinctHandles(a) && oldCols * oldRows <= |a|
    requires 0 <= col < oldCols && rows <= oldRows
    ensures NoDuplicates(DiscardedInColumn(a, oldCols, newCols, newRows, col, rows))
  {
    if rows > 0 {
      DiscardedInColumnNoDuplicates(a, oldCols, oldRows, newCols, newRows, col, rows - 1);
      var s := DiscardedInColumn(a, oldCols, newCols, newRows, col, rows - 1);
      var t := DiscardedAt(a, oldCols, newCols, newRows, col, rows - 1);
      forall p | p in s
        ensures p !in t
      {
        DiscardedInColumnMembers(a, oldCols, newCols, newRows, col, rows - 1, p);
        var row :| 0 <= row < rows - 1 && DiscardsAt(a, oldCols, newCols, newRows, col, row, p);
        if p in t {
          SameHandleSameCell(a, oldCols, oldRows, col, row, col, rows - 1);
        }
      }
      NoDuplicatesAppend(s, t);
    }
  }

  lemma {:induction false} DiscardedColumnsNoDuplicates(a: Table, oldCols: nat, oldRows: nat, newCols: nat, newRows: nat, cols: nat)
    requires DistinctHandles(a) && oldCols * oldRows <= |a|
    requires cols <= oldCols
    ensures NoDuplicates(DiscardedColumns(a, oldCols, oldRows, newCols, newRows, cols))
  {
    if cols > 0 {
      DiscardedColumnsNoDuplicates(a, oldCols, oldRows, newCols, newRows, cols - 1);
      DiscardedInColumnNoDuplicates(a, oldCols, oldRows, newCols, newRows, cols - 1, oldRows);
      var s := DiscardedColumns(a, oldCols, oldRows, newCols, newRows, cols - 1);
      var t := DiscardedInColumn(a, oldCols, newCols, newRows, cols - 1, oldRows);
      forall p | p in s
        ensures p !in t
      {
        DiscardedColumnsMembers(a, oldCols, oldRows, newCols, newRows, cols - 1, p);
        DiscardedInColumnMembers(a, oldCols, newCols, newRows, cols - 1, oldRows, p);
        var col, row :| 0 <= col < cols - 1 && 0 <= row < oldRows && DiscardsAt(a, oldCols, newCols, newRows, col, row, p);
        if p in t {
          var row' :| 0 <= row' < oldRows && DiscardsAt(a, oldCols, newCols, newRows, cols - 1, row', p);
          SameHandleSameCell(a, oldCols, oldRows, col, row, cols - 1, row');
        }
      }
      NoDuplicatesAppend(s, t);
    }
  }

  /** A handle is in the resized table exactly when it occupied an old cell that the new grid keeps. */
  lemma RetainedMembers(a: Table, oldCols: nat, oldRows: nat, newCols: nat, newRows: nat, p: PieceId)
    ensures Some(p) in Resized(a, oldCols, oldRows, newCols, newRows)
        <==> exists col, row :: 0 <= col < oldCols && 0 <= row < oldRows && col < newCols && row < newRows
                                && At(a, oldCols, col, row) == Some(p)
  {
    var r := Resized(a, oldCols, oldRows, newCols, newRows);
    if Some(p) in r {
      var i :| 0 <= i < |r| && r[i] == Some(p);
      IndexIsCell(newCols, newRows, i);
    }
    if exists col, row :: 0 <= col < oldCols && 0 <= row < oldRows && col < newCols && row < newRows
                          && At(a, oldCols, col, row) == Some(p) {
      var col, row :| 0 <= col < oldCols && 0 <= row < oldRows && col < newCols && row < newRows
                      && At(a, oldCols, col, row) == Some(p);
      ResizedCell(a, oldCols, oldRows, newCols, newRows, col, row);
      assert r[CellIndex(newCols, col, row)] == Some(p);
    }
  }

  /**
   * When no handle is stored twice, a resize keeps it that way, destroys no
   * piece twice, never destroys a piece it keeps, and accounts for every old
   * piece: each one is either kept or destroyed.
   */
  lemma ResizeConservesPieces(a: Table, oldCols: nat, oldRows: nat, newCols: nat, newRows: nat)
    requires DistinctHandles(a) && oldCols * oldRows <= |a|
    ensures DistinctHandles(Resized(a, oldCols, oldRows, newCols, newRows))
    ensures NoDuplicates(Discarded(a, oldCols, oldRows, newCols, newRows))
    ensures forall p :: p in Discarded(a, oldCols, oldRows, newCols, newRows)
                        ==> Some(p) !in Resized(a, oldCols, oldRows, newCols, newRows)
    ensures forall col, row :: 0 <= col < oldCols && 0 <= row < oldRows && At(a, oldCols, col, row).Some? ==>
              (Some(At(a, oldCols, col, row).value) in Resized(a, oldCols, oldRows, newCols, newRows)
               || At(a, oldCols, col, row).value in Discarded(a, oldCols, oldRows, newCols, newRows))
  {
    var r := Resized(a, oldCols, oldRows, newCols, newRows);
    var d := Discarded(a, oldCols, oldRows, newCols, newRows);
    forall i, j | 0 <= i < |r| && 0 <= j < |r| && i != j && r[i].Some?
      ensures r[i] != r[j]
    {
      IndexIsCell(newCols, newRows, i);
      IndexIsCell(newCols, newRows, j);
      if r[i] == r[j] {
        SameHandleSameCell(a, oldCols, oldRows, i % newCols, i / newCols, j % newCols, j / newCols);
      }
    }
    DiscardedColumnsNoDuplicates(a, oldCols, oldRows, newCols, newRows, oldCols);
    forall p | p in d
      ensures Some(p) !in r
    {
      DiscardedMembers(a, oldCols, oldRows, newCols, newRows, p);
      RetainedMembers(a, oldCols, oldRows, newCols, newRows, p);
      var col, row :| 0 <= col < oldCols && 0 <= row < oldRows && DiscardsAt(a, oldCols, newCols, newRows, col, row, p);
      if Some(p) in r {
        var col', row' :| 0 <= col' < oldCols && 0 <= row' < oldRows && col' < newCols && row' < newRows
                          && At(a, oldCols, col', row') == Some(p);
        SameHandleSameCell(a, oldCols, oldRows, col, row, col', row');
      }
    }
    forall col, row | 0 <= col < oldCols && 0 <= row < oldRows && At(a, oldCols, col, row).Some?
      ensures Some(At(a, oldCols, col, row).value) in r || At(a, oldCols, col, row).value in d
    {
      var p := At(a, oldCols, col, row).value;
      if col < newCols && row < newRows {
        RetainedMembers(a, oldCols, oldRows, newCols, newRows, p);
      } else {
        DiscardedMembers(a, oldCols, oldRows, newCols, newRows, p);
        assert DiscardsAt(a, oldCols, newCols, newRows, col, row, p);
      }
    }
  }
}
