/**
 * The level inspector (LevelInspector.cs): allocation of the piece table,
 * the pending dimensions the designer types in, and the resize that rebuilds
 * the piece table for the new dimensions, destroying the pieces that no
 * longer fit.
 *
 * Destroying a piece's game object is an engine call; here the resize
 * returns the destroyed handles, in the order the source destroys them.
 */
module Inspector {
  import opened Wrappers
  import opened PieceTable
  import opened Levels

  /**
   * The value an integer field returns: what the designer typed, or, when the
   * field was not edited, the value it was shown (the pending value, at least 1).
   */
  function FieldValue(edit: Option<int>, pending: int): (v: int)
    ensures edit.None? ==> v >= 1 && v >= pending && v == if pending < 1 then 1 else pending
    ensures edit.Some? ==> v == edit.value
  {
    match edit
    case Some(typed) => typed
    case None => if pending < 1 then 1 else pending
  }

  class LevelInspector {
    var target: Level
    var newTotalColumns: int
    var newTotalRows: int

    /** Enabling the inspector on `level`: allocate its piece table if needed, then reset the pending size. */
    constructor (level: Level)
      requires level.pieces == null || level.pieces.Length == 0 ==> level.totalColumns * level.totalRows >= 0
      modifies level`pieces
      ensures target == level
      ensures old(level.pieces) == null || old(level.pieces).Length == 0 ==>
                level.pieces != null && fresh(level.pieces) && level.pieces.Length == level.totalColumns * level.totalRows
                && forall i :: 0 <= i < level.pieces.Length ==> level.pieces[i] == None
      ensures old(level.pieces) != null && old(level.pieces).Length != 0 ==> level.pieces == old(level.pieces)
      ensures newTotalColumns == level.totalColumns && newTotalRows == level.totalRows
    {
      target := level;
      newTotalColumns, newTotalRows := 0, 0;
      new;
      InitLevel();
      ResetResizeValues();
    }

    /**
     * Allocates an all-empty piece table of totalColumns * totalRows cells when
     * the level has none or an empty one; any other table is kept as it is,
     * even if its length does not match the dimensions.
     */
    method InitLevel()
      requires target.pieces == null || target.pieces.Length == 0 ==> target.totalColumns * target.totalRows >= 0
      modifies target`pieces
      ensures old(target.pieces) == null || old(target.pieces).Length == 0 ==>
                target.pieces != null && fresh(target.pieces) && target.pieces.Length == target.totalColumns * target.totalRows
                && forall i :: 0 <= i < target.pieces.Length ==> target.pieces[i] == None
      ensures old(target.pieces) != null && old(target.pieces).Length != 0 ==> target.pieces == old(target.pieces)
    {
      if target.pieces == null || target.pieces.Length == 0 {
        target.pieces := new Option<PieceId>[target.totalColumns * target.totalRows](_ => None);
      }
    }

    /** Sets the pending dimensions back to the level's current ones. */
    method ResetResizeValues()
      modifies this`newTotalColumns, this`newTotalRows
      ensures newTotalColumns == target.totalColumns && newTotalRows == target.totalRows
    {
      newTotalColumns := target.totalColumns;
      newTotalRows := target.totalRows;
    }

    /**
     * Rebuilds the piece table for the pending dimensions: every cell that
     * still fits keeps its piece at the same (col, row), every new cell is
     * empty, and every piece outside the new dimensions is destroyed, in the
     * order the cells are visited (ResizeWalk).
     *
     * The source's exceptions are modelled by `completed == false`: a
     * negative number of new cells fails the allocation before anything is
     * visited, and an old cell whose index is past the end of the table (or a
     * table not yet allocated) fails the read of that cell after the pieces
     * visited before it were destroyed. Either way the level keeps its table
     * and its dimensions.
     */
    method ResizeLevel() returns (completed: bool, destroyed: seq<PieceId>)
      modifies target`pieces, target`totalColumns, target`totalRows
      ensures var walk := ResizeWalk(old(Contents(target.pieces)), old(target.totalColumns), old(target.totalRows),
                                     newTotalColumns, newTotalRows);
              completed == walk.completed && destroyed == walk.destroyed
      ensures completed ==>
                && newTotalColumns * newTotalRows >= 0
                && target.totalColumns == newTotalColumns && target.totalRows == newTotalRows
                && target.pieces != null && fresh(target.pieces)
                && target.pieces[..] == Resized(old(Contents(target.pieces)), Clamp(old(target.totalColumns)),
                                                Clamp(old(target.totalRows)), newTotalColumns, newTotalRows)
      ensures !completed ==>
                && target.totalColumns == old(target.totalColumns) && target.totalRows == old(target.totalRows)
                && target.pieces == old(target.pieces)
    {
      var oldPieces := target.pieces;
      // A negative dimension runs its loop zero times, as zero does.
      var oldCols := Clamp(target.totalColumns);
      var oldRows := Clamp(target.totalRows);
      var cols, rows := newTotalColumns, newTotalRows;
      ghost var a := Contents(oldPieces);
      if cols * rows < 0 {
        return false, [];
      }
      assert ResizeWalk(a, target.totalColumns, target.totalRows, cols, rows)
          == WalkColumns(a, oldCols, oldRows, cols, rows, oldCols);
      var newPieces := new Option<PieceId>[cols * rows](_ => None);
      ResizedUpToStart(a, oldCols, oldRows, cols, rows);
      destroyed := [];
      var col := 0;
      while col < oldCols
        invariant 0 <= col <= oldCols
        invariant newPieces[..] == ResizedUpTo(a, oldCols, oldRows, cols, rows, col, 0)
        invariant Walk(destroyed, true) == WalkColumns(a, oldCols, oldRows, cols, rows, col)
        invariant target.pieces == oldPieces
        invariant target.totalColumns == old(target.totalColumns) && target.totalRows == old(target.totalRows)
      {
        var destroyedInColumn, columnCompleted := ResizeColumn(oldPieces, oldCols, oldRows, newPieces, cols, rows, col, a);
        destroyed := destroyed + destroyedInColumn;
        if !columnCompleted {
          assert !WalkColumns(a, oldCols, oldRows, cols, rows, col + 1).completed;
          WalkColumnsStopped(a, oldCols, oldRows, cols, rows, col + 1, oldCols);
          return false, destroyed;
        }
        col := col + 1;
      }
      ResizedUpToEnd(a, oldCols, oldRows, cols, rows);
      target.pieces := newPieces;
      target.totalColumns := cols;
      target.totalRows := rows;
      completed := true;
    }

    /**
     * The size section of the inspector, one frame of it: the two integer
     * fields update the pending dimensions, then the Resize and Reset buttons
     * are enabled only when the pending dimensions differ from the level's.
     * An enabled Resize click resizes once the designer confirms the dialog;
     * an enabled Reset click sets the pending dimensions back.
     */
    method DrawLevelSizeGUI(columnsEdit: Option<int>, rowsEdit: Option<int>,
                            resizeClicked: bool, confirmed: bool, resetClicked: bool)
      returns (resized: bool, completed: bool, destroyed: seq<PieceId>)
      modifies this`newTotalColumns, this`newTotalRows, target`pieces, target`totalColumns, target`totalRows
      ensures var cols, rows := FieldValue(columnsEdit, old(newTotalColumns)), FieldValue(rowsEdit, old(newTotalRows));
              var enabled := cols != old(target.totalColumns) || rows != old(target.totalRows);
              var walk := ResizeWalk(old(Contents(target.pieces)), old(target.totalColumns), old(target.totalRows), cols, rows);
              && resized == (enabled && resizeClicked && confirmed)
              && (resized ==> completed == walk.completed && destroyed == walk.destroyed)
              && (resized && completed ==>
                    && target.totalColumns == cols && target.totalRows == rows
                    && target.pieces != null && fresh(target.pieces)
                    && target.pieces[..] == Resized(old(Contents(target.pieces)), Clamp(old(target.totalColumns)),
                                                    Clamp(old(target.totalRows)), cols, rows))
              && (!(resized && completed) ==>
                    && target.totalColumns == old(target.totalColumns) && target.totalRows == old(target.totalRows)
                    && target.pieces == old(target.pieces))
              && (!resized ==> completed && destroyed == [])
              && (completed && enabled && resetClicked ==>
                    newTotalColumns == target.totalColumns && newTotalRows == target.totalRows)
              && (!(completed && enabled && resetClicked) ==> newTotalColumns == cols && newTotalRows == rows)
    {
      newTotalColumns := FieldValue(columnsEdit, newTotalColumns);
      newTotalRows := FieldValue(rowsEdit, newTotalRows);
      var enabled := newTotalColumns != target.totalColumns || newTotalRows != target.totalRows;
      resized, completed, destroyed := false, true, [];
      if enabled && resizeClicked && confirmed {
        resized := true;
        completed, destroyed := ResizeLevel();
        if !completed {
          // The exception leaves the rest of the section undrawn.
          return;
        }
      }
      if enabled && resetClicked {
        ResetResizeValues();
      }
    }
  }

  // ---------------------------------------------------------------------------
  // The resize loop's progress: the new table after the loop has visited every
  // cell before (col, row), columns outermost
  // ---------------------------------------------------------------------------

  /**
   * The inner loop of the resize, for column `col`: copies each of the
   * column's old cells that still fits into the new table and collects the
   * pieces of the cells that do not, stopping when a cell lies past the end
   * of the old table.
   */
  method ResizeColumn(oldPieces: array?<Option<PieceId>>, oldCols: nat, oldRows: nat,
                      newPieces: array<Option<PieceId>>, cols: int, rows: int, col: nat, ghost a: Table)
    returns (destroyed: seq<PieceId>, completed: bool)
    requires a == Contents(oldPieces) && col < oldCols
    requires newPieces != oldPieces && cols * rows >= 0 && newPieces.Length == cols * rows
    requires newPieces[..] == ResizedUpTo(a, oldCols, oldRows, cols, rows, col, 0)
    modifies newPieces
    ensures Walk(destroyed, completed) == WalkColumn(a, oldCols, cols, rows, col, oldRows)
    ensures completed ==> newPieces[..] == ResizedUpTo(a, oldCols, oldRows, cols, rows, col + 1, 0)
  {
    destroyed := [];
    var row := 0;
    while row < oldRows
      invariant 0 <= row <= oldRows
      invariant newPieces[..] == ResizedUpTo(a, oldCols, oldRows, cols, rows, col, row)
      invariant Walk(destroyed, true) == WalkColumn(a, oldCols, cols, rows, col, row)
    {
      if oldPieces == null || col + row * oldCols >= oldPieces.Length {
        WalkColumnStopped(a, oldCols, cols, rows, col, row + 1, oldRows);
        return destroyed, false;
      }
      ResizedUpToStep(a, oldCols, oldRows, cols, rows, col, row);
      if col < cols && row < rows {
        newPieces[col + row * cols] := oldPieces[col + row * oldCols];
      } else {
        var piece := oldPieces[col + row * oldCols];
        if piece.Some? {
          destroyed := destroyed + [piece.value];
        }
      }
      row := row + 1;
    }
    ResizedUpToNextColumn(a, oldCols, oldRows, cols, rows, col);
    completed := true;
  }

  /** Once a column's walk has stopped, visiting further rows changes nothing. */
  lemma {:induction false} WalkColumnStopped(a: Table, oldCols: nat, newCols: int, newRows: int, col: int, rows: nat, rows': nat)
    requires rows <= rows' && !WalkColumn(a, oldCols, newCols, newRows, col, rows).completed
    ensures WalkColumn(a, oldCols, newCols, newRows, col, rows') == WalkColumn(a, oldCols, newCols, newRows, col, rows)
    decreases rows' - rows
  {
    if rows < rows' {
      WalkColumnStopped(a, oldCols, newCols, newRows, col, rows, rows' - 1);
    }
  }

  /** Once the walk over the columns has stopped, visiting further columns changes nothing. */
  lemma {:induction false} WalkColumnsStopped(a: Table, oldCols: nat, oldRows: nat, newCols: int, newRows: int, cols: nat, cols': nat)
    requires cols <= cols' && !WalkColumns(a, oldCols, oldRows, newCols, newRows, cols).completed
    ensures WalkColumns(a, oldCols, oldRows, newCols, newRows, cols') == WalkColumns(a, oldCols, oldRows, newCols, newRows, cols)
    decreases cols' - cols
  {
    if cols < cols' {
      WalkColumnsStopped(a, oldCols, oldRows, newCols, newRows, cols, cols' - 1);
    }
  }

  ghost function ResizedUpTo(a: Table, oldCols: nat, oldRows: nat, newCols: int, newRows: int, col: int, row: int): Table
    requires newCols * newRows >= 0
  {
    seq(newCols * newRows, i requires 0 <= i < newCols * newRows =>
      if newCols <= 0 then None
      else
        var c, r := i % newCols, i / newCols;
        if c < oldCols && r < oldRows && (c < col || (c == col && r < row)) then At(a, oldCols, c, r) else None)
  }

  lemma ResizedUpToStart(a: Table, oldCols: nat, oldRows: nat, newCols: int, newRows: int)
    requires newCols * newRows >= 0
    ensures ResizedUpTo(a, oldCols, oldRows, newCols, newRows, 0, 0) == seq(newCols * newRows, _ => None)
  {
  }

  lemma ResizedUpToStep(a: Table, oldCols: nat, oldRows: nat, newCols: int, newRows: int, col: int, row: int)
    requires newCols * newRows >= 0
    requires 0 <= col < oldCols && 0 <= row < oldRows
    ensures col < newCols && row < newRows ==>
              0 <= CellIndex(newCols, col, row) < newCols * newRows
              && ResizedUpTo(a, oldCols, oldRows, newCols, newRows, col, row + 1)
                 == ResizedUpTo(a, oldCols, oldRows, newCols, newRows, col, row)[CellIndex(newCols, col, row) := At(a, oldCols, col, row)]
    ensures !(col < newCols && row < newRows) ==>
              ResizedUpTo(a, oldCols, oldRows, newCols, newRows, col, row + 1)
              == ResizedUpTo(a, oldCols, oldRows, newCols, newRows, col, row)
  {
    var before := ResizedUpTo(a, oldCols, oldRows, newCols, newRows, col, row);
    var after := ResizedUpTo(a, oldCols, oldRows, newCols, newRows, col, row + 1);
    if col < newCols && row < newRows {
      var k := CellIndex(newCols, col, row);
      CellIndexInRange(newCols, newRows, col, row);
      CellIndexDecompose(newCols, col, row);
      forall i | 0 <= i < |after|
        ensures after[i] == before[k := At(a, oldCols, col, row)][i]
      {
        IndexIsCell(newCols, newRows, i);
      }
    } else {
      forall i | 0 <= i < |after|
        ensures after[i] == before[i]
      {
        if newCols > 0 {
          IndexIsCell(newCols, newRows, i);
        }
      }
    }
  }

  lemma ResizedUpToNextColumn(a: Table, oldCols: nat, oldRows: nat, newCols: int, newRows: int, col: int)
    requires newCols * newRows >= 0
    ensures ResizedUpTo(a, oldCols, oldRows, newCols, newRows, col, oldRows)
            == ResizedUpTo(a, oldCols, oldRows, newCols, newRows, col + 1, 0)
  {
    var before := ResizedUpTo(a, oldCols, oldRows, newCols, newRows, col, oldRows);
    var after := ResizedUpTo(a, oldCols, oldRows, newCols, newRows, col + 1, 0);
    forall i | 0 <= i < |after|
      ensures after[i] == before[i]
    {
      if newCols > 0 {
        IndexIsCell(newCols, newRows, i);
      }
    }
  }

  lemma ResizedUpToEnd(a: Table, oldCols: nat, oldRows: nat, newCols: int, newRows: int)
    requires newCols * newRows >= 0
    ensures ResizedUpTo(a, oldCols, oldRows, newCols, newRows, oldCols, 0) == Resized(a, oldCols, oldRows, newCols, newRows)
  {
  }
}
