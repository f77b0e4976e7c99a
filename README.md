# mosaic: the grid walk and its anti-repetition slot choice

`mosaic.py` builds a photo mosaic. It cuts the target image into a grid of
tile-sized cells. For each cell it asks a kd-tree for the `nearest_imgs` tiles
whose mean colour is closest to that cell's colour. It pastes one of them into
the output canvas at the cell's pixel offset. Which of the candidates is used
(its *rank*, `neigh`) is decided by an anti-repetition rule. The rule keeps one
list of grid positions per rank (`last_tile_position`). Each new cell takes the
first rank never used. If every rank is in use, it takes the rank whose nearest
earlier use is farthest from the cell.

This project models that core in Dafny, in four modules:

- `Metric`: the `distance` helper, a loop summing squared component differences.
  It is stated against a recursive specification and proved non-negative,
  symmetric, and zero exactly for equal points.
- `Grid`: the grid size. The code computes `size / tile + 1` with Python 2
  floor division. The module also gives the column-major visiting order
  (x outer, y inner) and the paste offset of each cell. It proves the following:
  - every cell of `[0, tx) x [0, ty)` is visited exactly once, cell (x, y) at
    position `x * ty + y`;
  - every target pixel lies in the tile rectangle of exactly one grid cell.
- `Slots`: the slot histories as a class (`SlotHistory`, standing for
  `last_tile_position`). It has the scan `Select` and the append `Record`. Both
  are proved against the predicates `FirstEmpty`, `Farthest`, `Chosen` and
  `Stuck`. Lemmas about the history cover these facts:
  - it is exactly the projection of the trace of chosen ranks;
  - its lengths add up to the number of cells visited;
  - no position appears in two ranks;
  - the first `nearest_imgs` cells take ranks 0, 1, ... in order.
- `Mosaic`: the walk itself. It has a `Canvas` class that logs pastes, and the
  method `Walk` with its two loop levels, `PaintColumn` and `PaintCell`.
  `Walk` returns how the walk ended, the ranks chosen, and the pastes made.
  Its contract states the following:
  - each rank is the one the scan picks given the history of the cells before it;
  - each paste is the candidate of that rank for the cell, placed at
    `(tileW * x, tileH * y)`;
  - the walk fails with an unassigned `neigh` exactly when `nearest_imgs <= 0`;
  - when it fails with a short query, that is the only way it stops early.

The kd-tree query, together with the coarse colour field it is asked about, is a
parameter `query: Cell -> seq<T>`: the candidates for a cell, nearest first, of
an abstract tile type `T`. Pastes are logged as (tile, offset) events; pixels
are not modelled.

Behaviour of `mosaic.py` worth knowing:

- Grid size: the code always adds one tile per axis, even when the target size
  is a multiple of the tile size. A 48x48 target with 24x24 tiles therefore
  gets a 3x3 grid, not 2x2. Its last column and row are pasted at offset 48,
  outside the canvas. `Grid.LastTileStartsInside` states exactly when the last
  tile starts inside the target.
- Invalid `nearest_imgs`: nothing checks the count. A count of zero or
  less (the function's own default is 0) gives no slots, so `neigh` is never
  assigned. The first append at line 93 then fails. This is modelled as the
  outcome `NeighUnbound`.
- Short candidate lists: a query with no more candidates than the chosen rank
  (at most `neigh` of them) makes `tree.query(...)[neigh]` fail. This is
  modelled as the outcome `RankOutOfRange`, after the cell was recorded in its
  slot's history.
- `neigh` is a function-local variable and is not reset per cell. The model
  carries it across cells. `Mosaic.FreshCell` proves that with at least one
  slot the scan always assigns it anew, because every cell is fresh.

## Model

| member | source | states |
|---|---|---|
| Metric.Distance | mosaic.py:32-38 | the accumulating loop returns the sum of the squared differences over every dimension of the first point |
| Metric.PartialDistance | mosaic.py:36-37 | the partial sum over the first n dimensions is never negative |
| Metric.PartialDistanceZero | mosaic.py:36-37 | the partial sum is 0 exactly when the points agree on each of those dimensions |
| Metric.PartialDistanceSymmetric | mosaic.py:36-37 | the partial sum does not depend on the argument order |
| Metric.DistanceZeroIff | mosaic.py:32-38 | points of equal dimension are at distance 0 if and only if they are equal |
| Metric.DistanceSymmetric | mosaic.py:32-38 | distance(a, b) == distance(b, a) for points of equal dimension |
| Grid.TileCount | mosaic.py:57 | the tile count is at least 1, the tiles reach past the extent, and all but the last start within it |
| Grid.LastTileStartsInside | mosaic.py:57 | the last tile starts inside the target if and only if the extent is not a multiple of the tile size |
| Grid.AxisOwner | mosaic.py:57 | pixel p of an axis falls in tile p div t, which is one of the counted tiles |
| Grid.PixelOwner | mosaic.py:57-102 | every target pixel lies in the pasted rectangle of its cell, that cell is visited, and no other cell's rectangle contains it |
| Grid.ColumnMajorLength | mosaic.py:75-76 | the walk over x columns of ty rows visits x * ty cells |
| Grid.ColumnMajorAt | mosaic.py:75-76 | the i-th cell visited is (i div ty, i mod ty), x outer and y inner |
| Grid.ColumnMajorIndex | mosaic.py:75-76 | cell (x, y) is visited at position x * ty + y |
| Grid.ColumnMajorBounds | mosaic.py:75-76 | every visited cell lies in [0, x) x [0, ty) |
| Grid.ColumnMajorCovers | mosaic.py:75-76 | a cell is visited if and only if it lies in [0, tx) x [0, ty) |
| Grid.ColumnMajorDistinct | mosaic.py:75-76 | two different positions of the walk hold different cells |
| Grid.ColumnMajorNoRepeat | mosaic.py:75-76 | no cell is visited twice |
| Grid.ColumnMajorGrows | mosaic.py:75-76 | the walk over fewer columns is a prefix of the walk over more |
| Grid.WalkPrefix | mosaic.py:75-76 | the cells visited before (x, y) are a prefix of the whole walk |
| Grid.WalkStep | mosaic.py:76 | visiting (x, y) extends the walk by exactly that cell |
| Slots.CellDistance | mosaic.py:85-86 | the squared grid distance is non-negative and zero exactly for the same cell |
| Slots.Closest | mosaic.py:85-86 | `min` with a distance key returns a recorded position no farther from the cell than any other |
| Slots.Clearance | mosaic.py:85-86 | a slot's clearance is at most the distance to each of its positions, and zero exactly when the cell is recorded in it |
| Slots.ChosenUnique | mosaic.py:78-90 | the scan's choice is unique, and a cell with a choice is not stuck |
| Slots.EmptySlotWins | mosaic.py:79-82 | when some slot is unused, the choice is the lowest unused slot, whatever the clearances of the used ones |
| Slots.FreshCellNotStuck | mosaic.py:78-90 | with at least one slot, a cell recorded nowhere always gets a slot |
| Slots.SlotHistory.constructor | mosaic.py:72 | one empty list per slot, and no slots for a non-positive count |
| Slots.SlotHistory.Select | mosaic.py:78-90 | the scan returns the lowest empty slot, or else the slot of largest positive clearance with ties kept at the lowest index; it returns none exactly when stuck |
| Slots.SlotHistory.Record | mosaic.py:93 | the cell is appended to the chosen slot's list and every other list is unchanged |
| Slots.HistoryStep | mosaic.py:93 | recording one more cell appends it to its slot's history and leaves every other slot alone |
| Slots.UsedMembers | mosaic.py:93 | a cell is in slot s's history if and only if it was visited and assigned s |
| Slots.UsedEmpty | mosaic.py:80 | slot s's history is empty if and only if no visited cell was assigned s |
| Slots.TotalAppend | mosaic.py:93 | appending to one slot grows the total length by one |
| Slots.TotalEmpty | mosaic.py:72 | fresh slot histories hold no positions |
| Slots.HistoryTotal | mosaic.py:72-93 | the slot histories together hold as many positions as cells were visited |
| Slots.HistoryDisjoint | mosaic.py:93 | when no cell is visited twice, no position is recorded in two slots |
| Slots.ValidRanksExtend | mosaic.py:78-93 | a valid rank trace extended by the slot chosen for the next cell stays valid |
| Slots.RanksBelow | mosaic.py:79 | every chosen rank lies in [0, nearest_imgs) |
| Slots.FirstSlotsInOrder | mosaic.py:79-82 | the first nearest_imgs cells visited take slots 0, 1, ... in order |
| Mosaic.Canvas.constructor | mosaic.py:63 | the new canvas has no pastes yet |
| Mosaic.Canvas.Paste | mosaic.py:102 | a paste appends exactly one (tile, offset) event |
| Mosaic.Walk | mosaic.py:50-102 | see "Walk" above: ranks follow the scan, pastes follow the ranks at offset (tileW * x, tileH * y), it fails unbound exactly when nearest_imgs <= 0, and a complete walk pastes every cell |
| Mosaic.PaintColumn | mosaic.py:76-102 | one column, top to bottom, keeps the walk's invariant, or stops unbound (no slots) or after a too-short query |
| Mosaic.PaintCell | mosaic.py:77-102 | one cell: the slot chosen by the scan (or the carried `neigh`) is recorded, and the candidate of that rank is pasted at the cell's offset unless the query is too short |
| Mosaic.PastedExtend | mosaic.py:99-102 | pasting the candidate of the next cell's rank extends the paste log consistently |
| Mosaic.PastedGrow | mosaic.py:93-99 | recording a cell without pasting it keeps the pastes made so far |
| Mosaic.WalkTrace | mosaic.py:75-102 | a walk stopped at any prefix of the grid has ranks and pastes that match that prefix |
| Mosaic.FreshCell | mosaic.py:75-90 | the cell about to be visited is in no slot's history, so with at least one slot `neigh` is assigned for it |
| Mosaic.SingleSlotPastesNearest | mosaic.py:79-99 | with nearest_imgs = 1 every cell takes rank 0, so every pasted tile is the cell's nearest candidate |

## Left out

- `rescale_crop` (mosaic.py:7-24): float crop factor, `int()` truncation and PIL's crop/resize. It depends on float rounding and a foreign library.
- `image_mean`, `ImgPoint`, `ImagePoint` (mosaic.py:26-48): the mean colour comes from PIL resampling to 1x1. A candidate is the abstract tile type `T`.
- PIL calls: `Image.new` pixels and size, the coarse colour field `resize` (line 66), the pixel copy done by `paste`, and `Image.blend` (line 104). They are a foreign library. Pastes are logged as events. The blend is not modelled.
- `kdtree.KDTree` and `tree.query` (mosaic.py:69, 99): the module is not part of this model. The query is the parameter `query`. Nothing is claimed about its ordering or tie-breaking.
- The command-line entry point (mosaic.py:106-152), including the zoom resize: argument parsing, file I/O and float scaling.
- Metric.Distance: Python accumulates a float. The model sums integers, which is exact for the small integer tuples `distance` is called with.
- Metric.Distance: requires the second point to have at least as many components as the first. Otherwise Python raises IndexError, and the model does not represent that error.
- Mosaic.Walk: requires positive tile sizes. A zero tile size raises ZeroDivisionError at line 57, which is not modelled. Negative sizes and extents cannot be expressed with `nat`.
- Mosaic.Walk: the query is a total function of the cell. The coarse colour field and the kd-tree are folded into it. So the model does not capture that the colour field itself is a resize of the target.
