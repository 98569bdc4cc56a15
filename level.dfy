/**
 * The level record (Level.cs): its serialized fields with their defaults,
 * the property setters, and the grid geometry (bounds tests and the
 * conversions between cells and world points).
 *
 * World coordinates are exact reals; the source's single-precision floats
 * and the rounding they introduce are not modelled.
 */
module Levels {
  import opened Wrappers
  import opened PieceTable
  import TimeDrawer

  /** A world-space point (the source's Vector3). */
  datatype Vec3 = Vec3(x: real, y: real, z: real)

  /** An engine asset the level only stores (background music, background sprite). */
  datatype AssetRef = AssetRef(id: nat)

  /** World-space width and height of one grid cell. */
  const GridSize: real := 1.28

  /** The (int) cast of a floating-point value: truncation toward zero, not floor. */
  function TruncateToInt(x: real): (n: int)
    ensures 0.0 <= x ==> 0 <= n && n as real <= x < n as real + 1.0
    ensures x < 0.0 ==> n <= 0 && n as real - 1.0 < x <= n as real
  {
    if x >= 0.0 then x.Floor else -((-x).Floor)
  }

  /** The cells of a piece table; a table not yet allocated has none. */
  function Contents(pieces: array?<Option<PieceId>>): Table
    reads pieces
  {
    if pieces == null then [] else pieces[..]
  }

  class Level {
    var totalTime: int
    var gravity: real
    var bgm: Option<AssetRef>
    var background: Option<AssetRef>
    var totalColumns: int
    var totalRows: int
    /** The piece table, row-major; null until the inspector allocates it. */
    var pieces: array?<Option<PieceId>>
    /** The position of the level's transform: the world point of the grid's corner. */
    var position: Vec3

    /** A freshly added level component, placed at `position`, with the serialized defaults. */
    constructor (position: Vec3)
      ensures this.position == position
      ensures totalTime == 60 && gravity == -30.0 && bgm == None && background == None
      ensures totalColumns == 25 && totalRows == 10 && pieces == null
    {
      this.position := position;
      totalTime := 60;
      gravity := -30.0;
      bgm := None;
      background := None;
      totalColumns := 25;
      totalRows := 10;
      pieces := null;
    }

    // Each property setter writes its own backing field and nothing else.

    method SetTotalTime(value: int)
      modifies this`totalTime
      ensures totalTime == value
    {
      totalTime := value;
    }

    method SetGravity(value: real)
      modifies this`gravity
      ensures gravity == value
    {
      gravity := value;
    }

    method SetBgm(value: Option<AssetRef>)
      modifies this`bgm
      ensures bgm == value
    {
      bgm := value;
    }

    method SetBackground(value: Option<AssetRef>)
      modifies this`background
      ensures background == value
    {
      background := value;
    }

    method SetTotalColumns(value: int)
      modifies this`totalColumns
      ensures totalColumns == value
    {
      totalColumns := value;
    }

    method SetTotalRows(value: int)
      modifies this`totalRows
      ensures totalRows == value
    {
      totalRows := value;
    }

    method SetPieces(value: array?<Option<PieceId>>)
      modifies this`pieces
      ensures pieces == value
    {
      pieces := value;
    }

    /** The piece table exists and has a cell for every (col, row) of the grid. */
    predicate CoversGrid()
      reads this
    {
      pieces != null && 0 <= totalColumns && 0 <= totalRows && totalColumns * totalRows <= pieces.Length
    }

    /**
     * The cell holding `point`, truncating the offset from the corner toward
     * zero: at or beyond the corner the point lies in the span of the cell it
     * is mapped to; before the corner, in the span of the cell one further
     * toward the corner's negative side.
     */
    function WorldToGridCoordinates(point: Vec3): (g: Vec3)
      reads this
      ensures g.z == 0.0 && g.x == g.x.Floor as real && g.y == g.y.Floor as real
      ensures point.x - position.x >= 0.0 ==> g.x * GridSize <= point.x - position.x < (g.x + 1.0) * GridSize
      ensures point.x - position.x < 0.0 ==> (g.x - 1.0) * GridSize < point.x - position.x <= g.x * GridSize
      ensures point.y - position.y >= 0.0 ==> g.y * GridSize <= point.y - position.y < (g.y + 1.0) * GridSize
      ensures point.y - position.y < 0.0 ==> (g.y - 1.0) * GridSize < point.y - position.y <= g.y * GridSize
    {
      Vec3(TruncateToInt((point.x - position.x) / GridSize) as real,
           TruncateToInt((point.y - position.y) / GridSize) as real,
           0.0)
    }

    /** The world point at the centre of cell (col, row). */
    function GridToWorldCoordinates(col: int, row: int): (p: Vec3)
      reads this
      ensures p.z == 0.0
      ensures col as real * GridSize < p.x - position.x < (col + 1) as real * GridSize
      ensures row as real * GridSize < p.y - position.y < (row + 1) as real * GridSize
      ensures (p.x - position.x) - col as real * GridSize == (col + 1) as real * GridSize - (p.x - position.x)
      ensures (p.y - position.y) - row as real * GridSize == (row + 1) as real * GridSize - (p.y - position.y)
    {
      Vec3(position.x + (col as real * GridSize + GridSize / 2.0),
           position.y + (row as real * GridSize + GridSize / 2.0),
           0.0)
    }

    /**
     * The point lies in the grid's rectangle, both edges included; such a
     * point maps to grid coordinates between 0 and the dimensions, the far
     * edges included.
     */
    predicate IsPointInsideGridBounds(point: Vec3): (inside: bool)
      reads this
      ensures inside ==> 0 <= totalColumns && 0 <= totalRows
      ensures inside ==> 0.0 <= WorldToGridCoordinates(point).x <= totalColumns as real
                         && 0.0 <= WorldToGridCoordinates(point).y <= totalRows as real
    {
      var minX := position.x;
      var maxX := minX + totalColumns as real * GridSize;
      var minY := position.y;
      var maxY := minY + totalRows as real * GridSize;
      point.x >= minX && point.x <= maxX && point.y >= minY && point.y <= maxY
    }

    /** The cell (col, row) is one of the grid's cells, and so has a row-major index inside a table of the grid's size. */
    predicate IsInsideGridBounds(col: int, row: int): (inside: bool)
      reads this
      ensures inside ==> 0 <= CellIndex(totalColumns, col, row) < totalColumns * totalRows
    {
      if col >= 0 && col < totalColumns && row >= 0 && row < totalRows then
        CellIndexInRange(totalColumns, totalRows, col, row);
        true
      else
        false
    }
  }

  // ---------------------------------------------------------------------------
  // Geometry lemmas
  // ---------------------------------------------------------------------------

  /** The offset of a cell's centre from the corner, in cells, is the index plus one half. */
  lemma CentreOffset(index: int, offset: real)
    requires offset == index as real * GridSize + GridSize / 2.0
    ensures offset / GridSize == index as real + 0.5
  {
    assert GridSize == 1.28;
    assert offset == (index as real + 0.5) * 1.28;
  }

  /** Truncating a cell's centre offset gives the index, or one more for negative indices. */
  lemma TruncateCentre(index: int)
    ensures TruncateToInt(index as real + 0.5) == if index >= 0 then index else index + 1
  {
    var n := TruncateToInt(index as real + 0.5);
    if index >= 0 {
      assert n as real <= index as real + 0.5 < n as real + 1.0;
    } else {
      assert n as real - 1.0 < index as real + 0.5 <= n as real;
    }
  }

  /** Converting a cell's centre back to grid coordinates gives the cell, for every cell with non-negative indices. */
  lemma GridWorldRoundTrip(level: Level, col: int, row: int)
    requires 0 <= col && 0 <= row
    ensures level.WorldToGridCoordinates(level.GridToWorldCoordinates(col, row)) == Vec3(col as real, row as real, 0.0)
  {
    var p := level.GridToWorldCoordinates(col, row);
    CentreOffset(col, p.x - level.position.x);
    CentreOffset(row, p.y - level.position.y);
    TruncateCentre(col);
    TruncateCentre(row);
  }

  /**
   * Because the conversion truncates toward zero, the centre of a cell with a
   * negative column maps one column too far to the right.
   */
  lemma GridWorldNegativeColumn(level: Level, col: int, row: int)
    requires col < 0 && 0 <= row
    ensures level.WorldToGridCoordinates(level.GridToWorldCoordinates(col, row)) == Vec3((col + 1) as real, row as real, 0.0)
  {
    var p := level.GridToWorldCoordinates(col, row);
    CentreOffset(col, p.x - level.position.x);
    CentreOffset(row, p.y - level.position.y);
    TruncateCentre(col);
    TruncateCentre(row);
  }

  /** Every offset strictly within one cell size of the corner, on either side, maps to cell 0. */
  lemma NearCornerMapsToCellZero(level: Level, point: Vec3)
    requires -GridSize < point.x - level.position.x < GridSize
    requires -GridSize < point.y - level.position.y < GridSize
    ensures level.WorldToGridCoordinates(point) == Vec3(0.0, 0.0, 0.0)
  {
  }

  /** The centre of every cell that passes the cell bounds test passes the point bounds test. */
  lemma CellCentreInsideGridBounds(level: Level, col: int, row: int)
    requires level.IsInsideGridBounds(col, row)
    ensures level.IsPointInsideGridBounds(level.GridToWorldCoordinates(col, row))
  {
    assert (col + 1) as real <= level.totalColumns as real;
    assert (row + 1) as real <= level.totalRows as real;
  }

  /**
   * A point inside the grid's rectangle but not on its far edges lies in one of
   * the grid's cells.
   */
  lemma InsidePointInsideCell(level: Level, point: Vec3)
    requires level.IsPointInsideGridBounds(point)
    requires point.x < level.position.x + level.totalColumns as real * GridSize
    requires point.y < level.position.y + level.totalRows as real * GridSize
    ensures var g := level.WorldToGridCoordinates(point);
            g.x == g.x.Floor as real && g.y == g.y.Floor as real
            && level.IsInsideGridBounds(g.x.Floor, g.y.Floor)
  {
    var dx, dy := (point.x - level.position.x) / GridSize, (point.y - level.position.y) / GridSize;
    assert dx < level.totalColumns as real;
    assert dy < level.totalRows as real;
  }

  /**
   * The point bounds test includes the far edge, but a point on the far
   * vertical edge maps to column totalColumns, which the cell bounds test rejects.
   */
  lemma FarEdgeOutsideCells(level: Level, point: Vec3)
    requires level.IsPointInsideGridBounds(point)
    requires point.x == level.position.x + level.totalColumns as real * GridSize
    ensures level.WorldToGridCoordinates(point).x == level.totalColumns as real
    ensures !level.IsInsideGridBounds(level.WorldToGridCoordinates(point).x.Floor, level.WorldToGridCoordinates(point).y.Floor)
  {
    assert (point.x - level.position.x) / GridSize == level.totalColumns as real;
  }

  /** The total time field carries the time attribute with its default: no hours. */
  const TotalTimeAttribute: TimeDrawer.TimeAttribute := TimeDrawer.NewTimeAttribute()

  /** A non-negative total time is drawn as minutes and seconds that read back as that time. */
  lemma TotalTimeShownAsMinutes(totalTime: int)
    requires totalTime >= 0
    ensures !TotalTimeAttribute.displayHours
    ensures TimeDrawer.ParseClock(TimeDrawer.FormatTime(TotalTimeAttribute, totalTime))
         == Some(TimeDrawer.MinutesSeconds(totalTime / 60, totalTime % 60))
  {
    TimeDrawer.FormatMinutesRoundTrip(totalTime);
  }
}
