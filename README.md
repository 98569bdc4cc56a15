# Level creator: a verified model of its grid, resize, time label and palette

This project models the logic at the heart of a Unity level-editor plugin
("RunAndJump" level creator) and proves properties of it in Dafny:

- **The level record** (`Levels`, level.dfy). The serialized fields and
  their defaults: 60 s total time, gravity -30, 25 columns, 10 rows, no
  piece table. The property setters. The two bounds tests, and the
  conversions between grid cells and world points. Coordinates are exact
  reals. The grid corner is the level's transform position, held in a
  `position` field.
- **The piece table** (`PieceTable`, piece_table.dfy). A flat row-major
  sequence of optional piece handles (`col + row * cols`). It also holds the
  value-level specification of a resize: `Resized` gives the new table, and
  `Discarded` gives the pieces destroyed, in the order the inspector
  visits them (columns outermost).
- **The level inspector** (`Inspector`, level_inspector.dfy). A class over
  the target level:
  - lazy allocation of the piece table;
  - the pending ("new") dimensions and their reset;
  - the in-place resize, with its nested loops over an `array`, including
    the exceptions it raises part-way (a negative cell count, or a piece
    table shorter than the grid) and what has been destroyed by then;
  - one frame of the size section, where Resize and Reset are enabled only
    when the pending dimensions differ from the level's.
- **The time label** (`TimeDrawer`, time_drawer.dfy). The drawer's
  `_timeFormat`, under the `DisplayHours` flag of the Time attribute.
  - C#'s truncating `/` and `%` are written out (`CsDiv`, `CsRem`), because
    a negative value typed into the field reaches the formatter.
  - A parser for the two label shapes, `M:SS (m:s)` and `H:MM:SS (h:m:s)`,
    is the inverse the formatter is proved against.
  - The hours expression at TimeDrawer.cs:34 is modelled as written; see
    Findings.
- **The palette window** (`Palette`, palette_window.dfy). A class that holds:
  - the category tabs and their labels;
  - the loaded palette items, grouped by category;
  - the preview cache;
  - the selection-grid contents for the selected tab.

  The enum value list, the asset loader and the preview generator are engine
  services. The window receives their results as parameters: the loaded
  item sequence, and a function from item to `Option<Texture>`.

The `(int)` cast in the world-to-grid conversion truncates toward zero rather
than flooring, and the model follows the code (`Levels.TruncateToInt`).
`Levels.GridWorldNegativeColumn` shows the consequence: for a negative
column, the cell centre maps back one column to the right.

## Model

| member | source | states |
|---|---|---|
| Levels.Level.constructor | Assets/Scripts/Level/Level.cs:9-21 | a new level has total time 60, gravity -30, no music or background, 25 columns, 10 rows and no piece table |
| Levels.Level.SetTotalTime | Assets/Scripts/Level/Level.cs:28-32 | the setter writes the total time and no other field |
| Levels.Level.SetGravity | Assets/Scripts/Level/Level.cs:34-38 | the setter writes the gravity and no other field |
| Levels.Level.SetBgm | Assets/Scripts/Level/Level.cs:40-44 | the setter writes the music reference and no other field |
| Levels.Level.SetBackground | Assets/Scripts/Level/Level.cs:46-50 | the setter writes the background reference and no other field |
| Levels.Level.SetTotalColumns | Assets/Scripts/Level/Level.cs:52-56 | the setter writes the column count and leaves rows, pieces and time unchanged |
| Levels.Level.SetTotalRows | Assets/Scripts/Level/Level.cs:58-62 | the setter writes the row count and no other field |
| Levels.Level.SetPieces | Assets/Scripts/Level/Level.cs:64-68 | the setter replaces the piece-table reference and no other field |
| Levels.TruncateToInt | Assets/Scripts/Level/Level.cs:102-103 | the int cast truncates toward zero: for x >= 0 the result is the floor; for x < 0 it is the ceiling, which is not above 0 |
| Levels.Level.WorldToGridCoordinates | Assets/Scripts/Level/Level.cs:99-106 | the result is a whole-numbered cell with z = 0; a point at or beyond the corner lies in the span [g * 1.28, (g + 1) * 1.28) of the cell g it maps to, and a point before the corner in (g - 1) * 1.28 .. g * 1.28, one cell further toward the corner |
| Levels.Level.GridToWorldCoordinates | Assets/Scripts/Level/Level.cs:108-115 | the point returned lies strictly inside the span of cell (col, row), equally far from both of its edges, with z = 0 |
| Levels.Level.IsPointInsideGridBounds | Assets/Scripts/Level/Level.cs:117-124 | a point that passes the test belongs to a grid with non-negative dimensions and maps to grid coordinates between 0 and (totalColumns, totalRows), far edges included |
| Levels.Level.IsInsideGridBounds | Assets/Scripts/Level/Level.cs:126-129 | a cell that passes the test has a row-major index inside a table of totalColumns * totalRows cells |
| Levels.NearCornerMapsToCellZero | Assets/Scripts/Level/Level.cs:99-106 | every point whose offset from the corner is strictly within one cell size, on either side, maps to cell (0, 0) |
| Levels.GridWorldRoundTrip | Assets/Scripts/Level/Level.cs:99-115 | for col, row >= 0, converting a cell's centre back to grid coordinates gives (col, row, 0) |
| Levels.GridWorldNegativeColumn | Assets/Scripts/Level/Level.cs:99-115 | for a negative column, the centre of cell (col, row) maps back to column col + 1 |
| Levels.CellCentreInsideGridBounds | Assets/Scripts/Level/Level.cs:108-129 | the centre of every cell that passes the cell bounds test passes the inclusive point bounds test |
| Levels.InsidePointInsideCell | Assets/Scripts/Level/Level.cs:99-129 | a point inside the grid rectangle, short of its far edges, maps to a whole-numbered cell that passes the cell bounds test |
| Levels.FarEdgeOutsideCells | Assets/Scripts/Level/Level.cs:99-129 | a point on the far vertical edge passes the inclusive point test, but maps to column totalColumns, which the cell test rejects |
| Levels.TotalTimeShownAsMinutes | Assets/Scripts/Level/Level.cs:8-9 | the total-time field's attribute has no hours, so a non-negative total time is labelled as minutes and seconds that read back as that time |
| PieceTable.CellIndexInRange | Assets/Tools/LevelCreator/Editor/LevelInspector.cs:84-90 | the row-major index of every in-bounds cell lies in [0, cols * rows) |
| PieceTable.CellIndexDecompose | Assets/Tools/LevelCreator/Editor/LevelInspector.cs:86 | division and remainder of the row-major index by the width give back the row and the column |
| PieceTable.CellIndexInjective | Assets/Tools/LevelCreator/Editor/LevelInspector.cs:86 | two in-bounds cells with the same row-major index are the same cell |
| PieceTable.IndexIsCell | Assets/Tools/LevelCreator/Editor/LevelInspector.cs:79 | every index of a cols * rows table is the row-major index of one in-bounds cell |
| PieceTable.ResizedCell | Assets/Tools/LevelCreator/Editor/LevelInspector.cs:79-86 | the resized table has newCols * newRows cells; a cell in both grids keeps its old handle at the same (col, row); a cell with no old counterpart is empty |
| PieceTable.ResizedSameDimensions | Assets/Tools/LevelCreator/Editor/LevelInspector.cs:79-100 | resizing to the current dimensions gives back the same table, cell for cell, and destroys nothing |
| PieceTable.DiscardedMembers | Assets/Tools/LevelCreator/Editor/LevelInspector.cs:88-94 | a piece is destroyed exactly when it occupies an old cell with col >= newCols or row >= newRows |
| PieceTable.GrowingDiscardsNothing | Assets/Tools/LevelCreator/Editor/LevelInspector.cs:84-94 | a resize that shrinks neither dimension destroys no piece |
| PieceTable.RetainedMembers | Assets/Tools/LevelCreator/Editor/LevelInspector.cs:84-86 | a handle is in the resized table exactly when it occupied an old cell that lies inside the new grid |
| PieceTable.WalkColumnSpec | Assets/Tools/LevelCreator/Editor/LevelInspector.cs:82-94 | the walk down one column reaches its end exactly when every cell of the column indexes into the table; then it destroys exactly that column's share of Discarded, and otherwise a prefix of it |
| PieceTable.WalkColumnsSpec | Assets/Tools/LevelCreator/Editor/LevelInspector.cs:80-96 | the walk over the columns reaches its end exactly when every old cell indexes into the table; then it destroys exactly those columns' share of Discarded, and otherwise a prefix of it |
| PieceTable.ResizeWalkSpec | Assets/Tools/LevelCreator/Editor/LevelInspector.cs:77-101 | the resize completes exactly when the new cell count is not negative and the table has at least oldCols * oldRows cells (negative old dimensions counting as 0); a completed resize destroys exactly Discarded, one cut short by an exception a prefix of it |
| PieceTable.ResizeConservesPieces | Assets/Tools/LevelCreator/Editor/LevelInspector.cs:79-100 | with no handle stored twice: the new table still stores no handle twice, no piece is destroyed twice, no kept piece is destroyed, and every old piece is either kept or destroyed |
| Inspector.FieldValue | Assets/Tools/LevelCreator/Editor/LevelInspector.cs:106-107 | an integer field returns the typed value; left alone, it returns max(1, pending): the pending value when it is at least 1, and 1 otherwise |
| Inspector.LevelInspector.constructor | Assets/Tools/LevelCreator/Editor/LevelInspector.cs:17-23 | enabling the inspector allocates the piece table if needed, and sets the pending dimensions to the level's |
| Inspector.LevelInspector.InitLevel | Assets/Tools/LevelCreator/Editor/LevelInspector.cs:59-69 | a missing or empty piece table is replaced by a fresh all-empty one of totalColumns * totalRows cells; any other table is kept as it is, even if its length is wrong |
| Inspector.LevelInspector.ResetResizeValues | Assets/Tools/LevelCreator/Editor/LevelInspector.cs:71-75 | the pending dimensions become the level's current ones |
| Inspector.LevelInspector.ResizeLevel | Assets/Tools/LevelCreator/Editor/LevelInspector.cs:77-101 | the destroyed handles and whether the resize completes are exactly those of ResizeWalk, in visiting order; a completed resize gives the level the pending dimensions and a fresh table equal to Resized of the old one; one that raises an exception (negative cell count, or a cell past the end of the table) leaves the level's table and dimensions as they were |
| Inspector.ResizeColumn | Assets/Tools/LevelCreator/Editor/LevelInspector.cs:82-96 | one pass of the inner loop over a column destroys exactly what the column's walk destroys and stops where it stops; when it completes, the new table has moved on to the next column of Resized |
| Inspector.LevelInspector.DrawLevelSizeGUI | Assets/Tools/LevelCreator/Editor/LevelInspector.cs:103-129 | the buttons are enabled only when the pending dimensions differ from the level's; an enabled, confirmed Resize resizes as ResizeLevel does, and otherwise the level is unchanged; an enabled Reset restores the pending dimensions, unless the resize in the same frame raised an exception |
| TimeDrawer.NewTimeAttribute | Assets/Tools/LevelCreator/Scripts/TimeAttribute.cs:11-14 | the attribute keeps the hours flag it is given; written without arguments, it has none (see Levels.TotalTimeShownAsMinutes) |
| TimeDrawer.FormatTime | Assets/Tools/LevelCreator/Editor/TimeDrawer.cs:29-45 | the label ends in " (h:m:s)" when the attribute displays hours and in " (m:s)" otherwise; its fields read back as the lemmas below state |
| TimeDrawer.CsDiv | Assets/Tools/LevelCreator/Editor/TimeDrawer.cs:34-35 | C# integer division truncates toward zero: the quotient times the divisor lies between 0 and the dividend, within one divisor of it |
| TimeDrawer.CsRem | Assets/Tools/LevelCreator/Editor/TimeDrawer.cs:35-36 | the remainder completes the truncating division and takes the sign of the dividend |
| TimeDrawer.CsAgreesOnNonNegative | Assets/Tools/LevelCreator/Editor/TimeDrawer.cs:41-42 | for a non-negative time, C#'s / and % agree with Euclidean division |
| TimeDrawer.PadLeft | Assets/Tools/LevelCreator/Editor/TimeDrawer.cs:37 | padding keeps the string as its suffix, reaches at least the width, and fills only with the pad character |
| TimeDrawer.ParseNatToString | Assets/Tools/LevelCreator/Editor/TimeDrawer.cs:37 | the decimal rendering of a number parses back to that number |
| TimeDrawer.TwoDigitField | Assets/Tools/LevelCreator/Editor/TimeDrawer.cs:37 | a value below 100, padded to two places with '0', is exactly two characters and parses back to itself |
| TimeDrawer.ParseRenderMinutesSeconds | Assets/Tools/LevelCreator/Editor/TimeDrawer.cs:43 | an "M:SS (m:s)" label reads back as the minutes and seconds it was rendered from |
| TimeDrawer.ParseRenderHoursMinutesSeconds | Assets/Tools/LevelCreator/Editor/TimeDrawer.cs:37 | an "H:MM:SS (h:m:s)" label reads back as the hours, minutes and seconds it was rendered from |
| TimeDrawer.FormatMinutesRoundTrip | Assets/Tools/LevelCreator/Editor/TimeDrawer.cs:39-44 | without hours, the label of s >= 0 reads back as minutes s / 60 and seconds s % 60, with seconds < 60 and minutes * 60 + seconds == s |
| TimeDrawer.FormatHoursAsWritten | Assets/Tools/LevelCreator/Editor/TimeDrawer.cs:32-37 | with hours, as written, the label of s >= 0 reads back as hours (s / 60) * 60, minutes (s % 3600) / 60 < 60 and seconds s % 60 < 60 |
| TimeDrawer.FormatHoursOverstates | Assets/Tools/LevelCreator/Editor/TimeDrawer.cs:34 | as written, the hours label stands for exactly s below one minute, and for more than s from one minute on |
| TimeDrawer.OneHourLabel | Assets/Tools/LevelCreator/Editor/TimeDrawer.cs:34 | as written, one hour (3600 s) is labelled 3600 hours, 0 minutes, 0 seconds |
| TimeDrawer.FormatIntendedRoundTrip | Assets/Tools/LevelCreator/Editor/TimeDrawer.cs:29-45 | with whole hours s / 3600, the label of s >= 0 reads back, in either shape, as exactly s seconds, with seconds below 60 and, in the hours shape, minutes below 60 |
| TimeDrawer.FormatIntendedHours | Assets/Tools/LevelCreator/Editor/TimeDrawer.cs:32-37 | with whole hours, the hours label of s >= 0 reads back as s / 3600 hours, (s % 3600) / 60 minutes and s % 60 seconds |
| TimeDrawer.HourMinuteSecondSplit | Assets/Tools/LevelCreator/Editor/TimeDrawer.cs:35-36 | for s >= 0, the minutes within the hour and the seconds within the minute are below 60, and whole hours, minutes and seconds add back up to s |
| Palette.Ordinal | Assets/Tools/LevelCreator/Scripts/PaletteItem.cs:10-16 | a category's integer value is its position in the enum's declaration order |
| Palette.CategoryName | Assets/Tools/LevelCreator/Editor/PaletteWindow.cs:73 | a category's label is its enum name, which is never empty |
| Palette.CategoryNamesDistinct | Assets/Tools/LevelCreator/Editor/PaletteWindow.cs:71-74 | two different categories get different labels, so each tab label names exactly one category |
| Palette.ItemsIn | Assets/Tools/LevelCreator/Editor/PaletteWindow.cs:86-89 | a category's group holds only items of that category, taken from the item list, and is no longer than the list |
| Palette.ItemsInComplete | Assets/Tools/LevelCreator/Editor/PaletteWindow.cs:86-89 | every item of a category is in that category's group |
| Palette.GroupSizesSum | Assets/Tools/LevelCreator/Editor/PaletteWindow.cs:82-89 | the four group sizes add up to the number of items |
| Palette.GroupsAreCategorized | Assets/Tools/LevelCreator/Editor/PaletteWindow.cs:82-85 | a map holding each category's group under every category is the grouped contents, with a key for every category |
| Palette.CategorizedGroup | Assets/Tools/LevelCreator/Editor/PaletteWindow.cs:82-89 | every category, even one with no items, has a key in the grouped contents, and its value is exactly that category's items |
| Palette.FilledPreviews | Assets/Tools/LevelCreator/Editor/PaletteWindow.cs:119-132 | filling never removes or replaces a cached preview; each new entry is an item with a non-null preview; every item with a non-null preview ends up cached |
| Palette.CacheBounded | Assets/Tools/LevelCreator/Editor/PaletteWindow.cs:119-132 | a cache whose keys are all items holds no more previews than there are items |
| Palette.FullCacheCoversItems | Assets/Tools/LevelCreator/Editor/PaletteWindow.cs:137 | when the cache's keys are items and the cache is as large as the item list, every item has a preview |
| Palette.PaletteWindow.constructor | Assets/Tools/LevelCreator/Editor/PaletteWindow.cs:12-23 | a new window has no categories, no grouped contents, and the first category selected |
| Palette.PaletteWindow.OnEnable | Assets/Tools/LevelCreator/Editor/PaletteWindow.cs:32-42 | categories and contents are built only when missing: a window that has them is left unchanged, so a second call changes nothing |
| Palette.PaletteWindow.InitCategories | Assets/Tools/LevelCreator/Editor/PaletteWindow.cs:67-75 | the categories are the enum values in declaration order; there is one label per category, and label i is the name of category i |
| Palette.PaletteWindow.InitContent | Assets/Tools/LevelCreator/Editor/PaletteWindow.cs:77-90 | the items become the loaded ones, the cache is emptied, and every category maps to exactly its items in list order |
| Palette.PaletteWindow.DrawTabs | Assets/Tools/LevelCreator/Editor/PaletteWindow.cs:92-97 | the selection becomes category i for toolbar index i, and label i names it; returning the current index keeps the selection |
| Palette.PaletteWindow.GeneratePreviews | Assets/Tools/LevelCreator/Editor/PaletteWindow.cs:119-132 | the cache becomes FilledPreviews of the old cache, visiting the items in order |
| Palette.PaletteWindow.Update | Assets/Tools/LevelCreator/Editor/PaletteWindow.cs:59-65 | the cache is filled only when its size differs from the item count; afterwards it never holds more previews than there are items |
| Palette.PaletteWindow.GetGUIContentFromItems | Assets/Tools/LevelCreator/Editor/PaletteWindow.cs:134-149 | nothing is returned until the cache is as large as the item list; after that every item has a preview, and there is one entry per item of the selected category, in group order, with its name and its preview |

## Left out

- Floating point: positions, `GridSize` (1.28) and gravity are exact reals. Single-precision rounding is not modelled, so the round trips hold over the reals only.
- Gizmo drawing (Level.cs:70-97, 131-149), and all inspector and window GUI layout: fields, labels, help boxes, scroll views, `SetDirty`, and the serialized-object lookup (LevelInspector.cs:35-57, 61-62). `DrawLevelSizeGUI` takes the fields' results, the button clicks and the dialog's answer as inputs.
- The inspector's data section (`_drawLevelDataGUI`): it only routes GUI values into the setters, which are modelled.
- `Object.DestroyImmediate`: the resize returns the destroyed handles in the order they are destroyed, instead of calling the engine.
- Piece references are modelled as natural-number handles (`PieceId`), and palette items and textures by an identity number. Reference identity and Unity's "destroyed object equals null" are not modelled.
- Inspector.LevelInspector.ResizeLevel: the 32-bit overflow of `cols * rows` and of the row-major indices is not modelled; products are exact. Unity's logging of the exception it raises is not modelled either: the exception is the result `completed == false`.
- Inspector.LevelInspector.InitLevel: requires a non-negative cell count when it allocates; the overflow and exception paths of the C# allocation are not modelled.
- TimeDrawer.FormatTime: renders negative values with C#'s truncating arithmetic, but the round-trip lemmas are stated for non-negative times only. The parser does not read minus signs.
- `TimeDrawer.OnGUI` and `GetPropertyHeight` (TimeDrawer.cs:11-27): GUI rectangles, the clamp of the shown value and the error help box.
- `EditorUtils.GetListFromEnum` and `GetAssetsWithScript` are not part of this model. The category list is taken to be the enum values in declaration order (`Palette.AllCategories`). The loaded items are a parameter.
- `AssetPreview.GetAssetPreview` is a parameter function returning `Option<Texture>`, where None stands for a null preview.
- `_drawScroll`, `_getGUIStyle` and `_getSelectedItem` (PaletteWindow.cs:99-117, 151-159): GUI code. The last two are empty in the source.
- `ShowPalette`, `OnDisable`, `OnDestroy` and `OnGUI` of the window and inspector, MenuItems.cs and EditorUtils.cs: engine glue and logging.
- Palette.PaletteWindow.Update: assumes the window was enabled first (an unenabled window has an empty item list and cache). The null-reference exception that C# would raise otherwise is not modelled.
- Paint, erase and move operations and an edit-mode state machine do not appear in the code, so they are not modelled.

## Findings

| source | as written | input that shows it | evidently intended | confidence | as-written member | corrected member |
|---|---|---|---|---|---|---|
| Assets/Tools/LevelCreator/Editor/TimeDrawer.cs:34 | `totalSeconds / 60 * 60` parses as `(totalSeconds / 60) * 60`, the whole minutes times 60 | totalSeconds = 3600 gives "3600:00:00 (h:m:s)" | `totalSeconds / (60 * 60)`, the whole hours, so 3600 s gives "1:00:00 (h:m:s)" | not executed | TimeDrawer.OneHourLabel | TimeDrawer.FormatIntendedRoundTrip |
